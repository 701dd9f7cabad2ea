/**
  `TransferModal` from src/App.jsx as a state machine. The modal's React state
  is one immutable record; each handler is a pure function from that record
  (and the outcome of the network call it makes, passed in) to the record
  afterwards, the call it issued, and the toast it raised.
*/
module Transfer {
  import opened Wrappers
  import opened JsValues
  import opened Strings
  import Toasts
  import Validation
  import IdempotencyKey
  import IdempotencyKeyFormat
  import RecipientPath

  /** The `step` flag. */
  datatype Step = Form | Confirm | Success

  /** `transferType`: between the user's own accounts, or to someone else. */
  datatype Kind = Own | External

  /** A resolved recipient: `{ name, accountIds }` from the lookup. */
  datatype Recipient = Recipient(name: string, accountIds: seq<string>)

  /** The modal's state. An `undefined` destination (from a recipient with no accounts) is
      held as "": every reader of `toAccountId` treats the two alike. */
  datatype Modal = Modal(
    step: Step,
    kind: Kind,
    fromAccount: string,
    toAccountId: string,
    amount: string,
    recipientEmail: string,
    resolvedUser: Option<Recipient>)

  /** The state a freshly opened modal starts in. */
  const Initial: Modal := Modal(Form, Own, "", "", "", "", None)

  /** The two network calls the modal makes. */
  datatype Call =
    | Resolve(target: string)
    | PostTransaction(fromAccount: string, toAccount: string, amount: real, idempotencyKey: string)

  /** What one handler does: the state afterwards, the call it made, the toast it raised. */
  datatype Reaction = Reaction(modal: Modal, call: Option<Call>, toast: Option<Toasts.Toast>)

  const EnterEmail: string := "Please enter an email address."
  const InvalidEmail: string := "Please enter a valid email format."
  const Verified: string := "Recipient verified!"
  const InvalidAmount: string := "Please enter a valid amount greater than $0.00."
  const Unverified: string := "Please verify the recipient's email and select an account."
  const NoDestination: string := "Please select a destination account."
  const SameAccount: string := "Cannot transfer to the same account."
  const Completed: string := "Transfer completed successfully!"

  /** A rejection: an error toast and nothing else. */
  function Reject(m: Modal, message: string): (r: Reaction)
    ensures r.modal == m && r.call.None? && r.toast == Some(Toasts.Toast(message, Toasts.Error))
  {
    Reaction(m, None, Some(Toasts.Toast(message, Toasts.Error)))
  }

  /** `parseFloat(form.amount)` gave a number greater than zero (`None` stands for NaN). */
  predicate AmountAccepted(parsed: Option<real>) {
    parsed.Some? && parsed.value > 0.0
  }

  /** What the form step demands before confirmation: a verified recipient and a chosen account
      for an external transfer; a chosen account other than the source for an own transfer. */
  predicate DestinationReady(m: Modal) {
    match m.kind
    case External => m.resolvedUser.Some? && m.toAccountId != ""
    case Own => m.toAccountId != "" && m.toAccountId != m.fromAccount
  }

  /** `accountIds[0]`, with `undefined` for an empty list held as "". */
  function FirstAccount(ids: seq<string>): (id: string)
    ensures ids != [] ==> id == ids[0]
    ensures ids == [] ==> id == ""
  {
    if ids == [] then "" else ids[0]
  }

  /** The address checks of `handleVerifyEmail`: `Some` message for an address that is refused. */
  function AddressProblem(email: string): (p: Option<string>)
    ensures p.None? <==> Validation.IsValidEmail(Trim(email))
    ensures email == "" ==> p == Some(EnterEmail)
    ensures email != "" ==> (p.Some? <==> p == Some(InvalidEmail))
  {
    if email == "" then
      EmptyAddressInvalid();
      Some(EnterEmail)
    else if !Validation.IsValidEmail(Trim(email)) then Some(InvalidEmail)
    else None
  }

  /** What `handleVerifyEmail` does before it awaits the lookup: a refused address raises its toast
      and changes nothing; a valid one clears the stale recipient and sends the lookup to the target
      interpolated from the trimmed address. */
  function StartVerify(m: Modal): (r: Reaction)
    ensures AddressProblem(m.recipientEmail).Some? ==> r == Reject(m, AddressProblem(m.recipientEmail).value)
    ensures Validation.IsValidEmail(Trim(m.recipientEmail)) ==>
              && r.modal == m.(resolvedUser := None) && r.toast.None?
              && r.call == Some(Resolve(RecipientPath.ResolveTargetAsWritten(m.recipientEmail)))
  {
    match AddressProblem(m.recipientEmail)
    case Some(message) => Reject(m, message)
    case None => Reaction(m.(resolvedUser := None), Some(Resolve(RecipientPath.ResolveTargetAsWritten(m.recipientEmail))), None)
  }

  /** `StartVerify` with the address escaped into the target, as the lookup evidently intends: the
      route then always receives exactly the trimmed address. */
  function StartVerifyEscaped(m: Modal): (r: Reaction)
    ensures r.modal == StartVerify(m).modal && r.toast == StartVerify(m).toast
    ensures r.call.Some? <==> Validation.IsValidEmail(Trim(m.recipientEmail))
    ensures r.call.Some? ==> r.call.value.Resolve?
                             && RecipientPath.RouteEmail(r.call.value.target) == Some(Trim(m.recipientEmail))
  {
    match AddressProblem(m.recipientEmail)
    case Some(message) => Reject(m, message)
    case None => Reaction(m.(resolvedUser := None), Some(Resolve(RecipientPath.ResolveTarget(m.recipientEmail))), None)
  }

  /** What `handleVerifyEmail` does once the lookup answers, to the modal as it is by then: a found
      recipient becomes the verified one and its first account the destination; a failure empties
      the destination and raises the error. No other field changes and no call is made. */
  function Settle(m: Modal, lookup: Result<Recipient>): (r: Reaction)
    ensures r.call.None? && r.modal.step == m.step && r.modal.kind == m.kind
    ensures lookup.Ok? ==> && r.modal == m.(resolvedUser := Some(lookup.value), toAccountId := FirstAccount(lookup.value.accountIds))
                           && r.toast == Some(Toasts.Toast(Verified, Toasts.Success))
    ensures lookup.Err? ==> r.modal == m.(toAccountId := "") && r.toast == Some(Toasts.Toast(lookup.message, Toasts.Error))
  {
    match lookup
    case Ok(user) =>
      Reaction(m.(resolvedUser := Some(user), toAccountId := FirstAccount(user.accountIds)),
               None, Some(Toasts.Toast(Verified, Toasts.Success)))
    case Err(message) =>
      Reaction(m.(toAccountId := ""), None, Some(Toasts.Toast(message, Toasts.Error)))
  }

  /** `handleVerifyEmail` when the lookup answers before anything else happens in the modal:
      `StartVerify` then `Settle`. */
  function VerifyEmail(m: Modal, lookup: Result<Recipient>): (r: Reaction)
    ensures !Validation.IsValidEmail(Trim(m.recipientEmail)) ==> r.modal == m && r.call.None?
    ensures m.recipientEmail == "" ==> r == Reject(m, EnterEmail)
    ensures m.recipientEmail != "" && !Validation.IsValidEmail(Trim(m.recipientEmail)) ==> r == Reject(m, InvalidEmail)
    ensures Validation.IsValidEmail(Trim(m.recipientEmail)) ==>
              r.call == Some(Resolve(RecipientPath.ResolveTargetAsWritten(m.recipientEmail)))
    ensures r.call.Some? && lookup.Ok? ==>
              r.modal == m.(resolvedUser := Some(lookup.value), toAccountId := FirstAccount(lookup.value.accountIds))
    ensures r.call.Some? && lookup.Err? ==>
              r.modal == m.(resolvedUser := None, toAccountId := "") && r.toast == Some(Toasts.Toast(lookup.message, Toasts.Error))
  {
    var started := StartVerify(m);
    if started.call.None? then started
    else
      var settled := Settle(started.modal, lookup);
      Reaction(settled.modal, started.call, settled.toast)
  }

  lemma EmptyAddressInvalid()
    ensures !Validation.IsValidEmail(Trim(""))
  {
    assert Trim("") == "";
  }

  /** `handleSubmit`, with `parseFloat` as the oracle `parse`, the 31 random draws of the key the
      attempt would mint, and the transfer call's outcome as inputs. */
  function Submit(m: Modal, parse: string -> Option<real>, draws: IdempotencyKey.Draws, posted: Result<Json>): (r: Reaction)
    // An unacceptable amount is refused in every step, and nothing changes.
    ensures !AmountAccepted(parse(m.amount)) ==> r == Reject(m, InvalidAmount)
    // In the form step no call is made; the step advances exactly when every guard holds,
    // and a refusal changes nothing.
    ensures m.step == Form ==> r.call.None?
    ensures m.step == Form ==>
              (r.modal.step == Confirm <==> AmountAccepted(parse(m.amount)) && DestinationReady(m))
    ensures m.step == Form && r.modal.step == Confirm ==> r.modal == m.(step := Confirm) && r.toast.None?
    ensures m.step == Form && r.modal.step != Confirm ==> r.modal == m && r.toast.Some? && r.toast.value.severity == Toasts.Error
    // Past the form step an accepted amount sends exactly one transfer with a fresh version-4 key,
    // and only the step changes.
    ensures m.step != Form && AmountAccepted(parse(m.amount)) ==>
              && r.call == Some(PostTransaction(m.fromAccount, m.toAccountId, parse(m.amount).value,
                                                IdempotencyKeyFormat.Generate(draws)))
              && IdempotencyKeyFormat.IsV4Key(r.call.value.idempotencyKey)
              && r.modal == m.(step := r.modal.step)
              && (posted.Ok? ==> r.modal.step == Success && r.toast == Some(Toasts.Toast(Completed, Toasts.Success)))
              && (posted.Err? ==> r.modal.step == Form && r.toast == Some(Toasts.Toast(posted.message, Toasts.Error)))
  {
    var parsed := parse(m.amount);
    if !AmountAccepted(parsed) then Reject(m, InvalidAmount)
    else if m.step == Form then
      if m.kind == External && (m.resolvedUser.None? || m.toAccountId == "") then Reject(m, Unverified)
      else if m.kind == Own && m.toAccountId == "" then Reject(m, NoDestination)
      else if m.kind == Own && m.fromAccount == m.toAccountId then Reject(m, SameAccount)
      else Reaction(m.(step := Confirm), None, None)
    else
      var call := PostTransaction(m.fromAccount, m.toAccountId, parsed.value, IdempotencyKeyFormat.Generate(draws));
      match posted
      case Ok(_) => Reaction(m.(step := Success), Some(call), Some(Toasts.Toast(Completed, Toasts.Success)))
      case Err(message) => Reaction(m.(step := Form), Some(call), Some(Toasts.Toast(message, Toasts.Error)))
  }

  /** The "Back" button on the confirmation screen. */
  function Back(m: Modal): (r: Modal)
    ensures r.step == Form && r == m.(step := Form)
  {
    m.(step := Form)
  }

  /** A click on either transfer-type button, the current one included. */
  function ChooseKind(m: Modal, kind: Kind): (r: Modal)
    ensures r.kind == kind && r.toAccountId == ""
    ensures r.(kind := m.kind, toAccountId := m.toAccountId) == m
  {
    m.(kind := kind, toAccountId := "")
  }

  /** Typing in the recipient-email field: any earlier verification is dropped. */
  function EditEmail(m: Modal, email: string): (r: Modal)
    ensures r.recipientEmail == email && r.resolvedUser.None?
    ensures r.(recipientEmail := m.recipientEmail, resolvedUser := m.resolvedUser) == m
  {
    m.(recipientEmail := email, resolvedUser := None)
  }

  /** The three inputs bound through `update(k)`. */
  datatype Field = FromAccount | ToAccountId | Amount

  function EditField(m: Modal, field: Field, value: string): (r: Modal)
    ensures field == FromAccount ==> r == m.(fromAccount := value)
    ensures field == ToAccountId ==> r == m.(toAccountId := value)
    ensures field == Amount ==> r == m.(amount := value)
  {
    match field
    case FromAccount => m.(fromAccount := value)
    case ToAccountId => m.(toAccountId := value)
    case Amount => m.(amount := value)
  }

  /** A failed transfer returns to the form with the draft intact, so a retry must be confirmed
      again, and the retry mints its own key from its own draws. */
  lemma FailedSubmitKeepsDraft(m: Modal, parse: string -> Option<real>, draws: IdempotencyKey.Draws, message: string)
    requires m.step == Confirm && AmountAccepted(parse(m.amount))
    ensures var r := Submit(m, parse, draws, Err(message));
            && r.modal.step == Form
            && r.modal.fromAccount == m.fromAccount && r.modal.toAccountId == m.toAccountId
            && r.modal.amount == m.amount
            && Submit(r.modal, parse, draws, Err(message)).call.None?
  {
  }

  /** Two attempts whose draws differ in any kept bit send different keys. */
  lemma DistinctAttemptsDistinctKeys(m: Modal, parse: string -> Option<real>,
                                     a: IdempotencyKey.Draws, b: IdempotencyKey.Draws,
                                     pa: Result<Json>, pb: Result<Json>)
    requires m.step == Confirm && AmountAccepted(parse(m.amount))
    requires IdempotencyKeyFormat.KeptBits(a) != IdempotencyKeyFormat.KeptBits(b)
    ensures Submit(m, parse, a, pa).call.value.idempotencyKey != Submit(m, parse, b, pb).call.value.idempotencyKey
  {
    IdempotencyKeyFormat.GenerateInjective(a, b);
  }

  /** Verifying the same address twice with the same answer leaves the same state as verifying it once. */
  lemma VerifyIdempotent(m: Modal, lookup: Result<Recipient>)
    ensures VerifyEmail(VerifyEmail(m, lookup).modal, lookup).modal == VerifyEmail(m, lookup).modal
  {
  }

  /** The lookup of a valid address with none of `%`, `?`, `#`, `/` and `\` asks the route about
      exactly that address, trimmed. */
  lemma LookupAsksAboutAddress(m: Modal, lookup: Result<Recipient>)
    requires Validation.IsValidEmail(Trim(m.recipientEmail)) && RecipientPath.Plain(Trim(m.recipientEmail))
    ensures VerifyEmail(m, lookup).call.Some? && VerifyEmail(m, lookup).call.value.Resolve?
    ensures RecipientPath.RouteEmail(VerifyEmail(m, lookup).call.value.target) == Some(Trim(m.recipientEmail))
  {
    var target := RecipientPath.ResolveTargetAsWritten(m.recipientEmail);
    assert VerifyEmail(m, lookup).call == Some(Resolve(target));
  }

  /** The source's lookup of the valid address `a#a@a.a` asks the route about `a`. */
  lemma LookupLosesFragment(m: Modal, lookup: Result<Recipient>)
    requires m.recipientEmail == "a#a@a.a"
    ensures Validation.IsValidEmail(Trim(m.recipientEmail))
    ensures VerifyEmail(m, lookup).call.Some? && VerifyEmail(m, lookup).call.value.Resolve?
    ensures RecipientPath.RouteEmail(VerifyEmail(m, lookup).call.value.target) == Some("a")
  {
    RecipientPath.AsWrittenLosesFragment('a');
    RecipientPath.WitnessIsValid('a');
    assert m.recipientEmail == ['a', '#', 'a', '@', 'a', '.', 'a'];
  }

  /** A failed re-verification never leaves an earlier recipient behind. */
  lemma FailedVerifyClearsRecipient(m: Modal, message: string)
    requires Validation.IsValidEmail(Trim(m.recipientEmail))
    ensures VerifyEmail(m, Err(message)).modal.resolvedUser.None?
    ensures VerifyEmail(m, Err(message)).modal.toAccountId == ""
  {
  }
}
