# LedgerVault client logic in Dafny

LedgerVault is a single-page React client for a ledger backend. Users sign in or register, see their
accounts and balances, open and close accounts, and move money between their own accounts or to
another user found by email. Almost all of `src/App.jsx` is presentation. This project models the
logic inside it as immutable records and pure transition functions:

- **Transfer modal** (`Transfer`, `TransferFlow`). The `TransferModal` state is one `Modal` record
  with a `Step` (`Form`, `Confirm`, `Success`) and a `Kind` (`Own`, `External`). `StartVerify` and
  `Settle` (the two halves of `handleVerifyEmail`, on either side of its `await`), `Submit`, `Back`,
  `ChooseKind`, `EditEmail` and `EditField` are its handlers. Each returns the new state, the
  network call it made and the toast it raised. The outcome of the call is an input.
  `TransferFlow` runs sequences of the events the rendered modal offers, with the lookup's answer
  as an event of its own that can arrive after other events. It shows that a late answer can turn
  a confirmed own transfer into one to the recipient's account. It proves that a client that drops
  such stale answers sends only transfers that passed the form-step guards, even though submitting
  from the confirmation screen re-checks only the amount.
- **Idempotency key** (`IdempotencyKey`, `IdempotencyKeyFormat`). The key fills the template
  `xxxxxxxx-xxxx-4xxx-yxxx-xxxxxxxxxxxx` from 31 random nibbles. The nibbles are an input.
  Every result is a lower-case version-4 UUID. Every such UUID is produced by some draws. Two draws
  give the same key exactly when they agree on the bits the key keeps.
- **Validation** (`Validation`, `Auth`). `isValidEmail` is computed by finding the first `@`. It is
  proved equal to the shape its regular expression describes. The sign-in/registration form checks
  name, email and password in that order. Logging in and out moves the session between the sign-in
  screen and the dashboard.
- **Accounts** (`Accounts`): the balance fallback after a fetch, the close-account guard, the status
  label and the two status tiles, and how the account list is read out of the server's reply.
- **API** (`Api`): how one finished `fetch` becomes the body or the message of the thrown error.
- **Recipient lookup path** (`RecipientPath`). The email is put into the lookup URL without
  escaping. See "## Findings".
- Support modules: `Wrappers` (`Option`, `Result`), `JsValues` (a JSON value with JavaScript
  truthiness, `||`, `??`, and property reads that throw on `null`), `Strings` (`trim`, ASCII
  `toLowerCase`, decimal numerals), `Toasts`.

Inputs stand in for what the program cannot decide for itself:

- the server's replies (`Result` values), including a JSON `null` body;
- the user's answer to `window.confirm` (a `bool`);
- `parseFloat` (an oracle `string -> Option<real>`, where `None` stands for NaN);
- `Math.random` (the 31 draws).

Where the code and its description disagree, the model follows the code:

- An account may be closed when its balance is `null` or the failure dash, not only when it is 0
  (`Accounts.Close`, `Accounts.CloseAfterFetch`).
- A reply object that carries neither `accounts` nor `data` becomes the account list itself, not
  `[]` (`Accounts.ObjectWithoutListKept`).
- `handleSubmit` re-checks only the amount outside the form step. The destination guards still hold
  there when every lookup answers while it is current (`TransferFlow.TimelySourceRunsAreSafe`). A late
  answer rewrites the confirmed destination and breaks them (`TransferFlow.LateReplyRedirects`, the
  second row of "## Findings"). Only a client that drops stale answers keeps them on every run
  (`TransferFlow.RunSafe`).
- The identity adopted on login falls back to the email as typed, not trimmed
  (`Auth.LoginFallsBackToTypedEmail`).
- The lookup URL carries the email unescaped (`Transfer.StartVerify`), and the lookup's answer is
  applied to whatever the modal shows when it arrives (`TransferFlow.Handle`). Both are listed
  under "## Findings". The corrected variants are separate members (`Transfer.StartVerifyEscaped`,
  the `Corrected` client of `TransferFlow`).
- A reply whose JSON body is `null` makes every handler that reads a property of it throw, and the
  handler's `catch` receives the `TypeError` (`JsValues.Read`).

## Model

| member | source | states |
|---|---|---|
| IdempotencyKeyFormat.Generate | src/App.jsx:10-16 | every key filled from 31 draws has length 36, '-' at 8, 13, 18 and 23, '4' at 14, one of 8, 9, a, b at 19, and a lower-case hex digit everywhere else |
| IdempotencyKeyFormat.ShapeIsV4 | src/App.jsx:11 | a string fits the template character by character exactly when it has the version-4 shape |
| IdempotencyKeyFormat.TemplateSlots | src/App.jsx:11 | the template has 31 placeholders, one per draw |
| IdempotencyKeyFormat.DrawsOf | src/App.jsx:10-16 | every string of the version-4 shape is generated from the draws read back out of it, so the generator covers the whole format |
| IdempotencyKeyFormat.GenerateInjective | src/App.jsx:12-13 | two draws give the same key exactly when they agree everywhere except the two high bits of the `y` draw, which the variant digit discards |
| IdempotencyKey.FillMatches | src/App.jsx:11-15 | filling any template gives a string that fits it at every position |
| IdempotencyKey.MatchesAt | src/App.jsx:11 | fitting a template is the same as fitting it position by position |
| IdempotencyKey.FillUnfill | src/App.jsx:11-15 | reading the draws back out of a key that fits a template and filling again gives the key back |
| IdempotencyKey.UnfillFill | src/App.jsx:11-15 | reading a filled key back gives the draws with each `y` draw reduced to the bits it keeps |
| IdempotencyKey.FillInjective | src/App.jsx:11-15 | two fills agree exactly when their reduced draws agree |
| IdempotencyKey.FillCanonical | src/App.jsx:13 | reducing the draws first does not change the key |
| IdempotencyKey.CanonicalOfCanonical | src/App.jsx:13 | reducing the draws twice is the same as reducing them once |
| IdempotencyKey.HexRoundTrip | src/App.jsx:14 | `toString(16)` of a nibble is one lower-case hex digit that reads back as the nibble |
| IdempotencyKey.VariantDigit | src/App.jsx:13 | each of 8, 9, a and b is the variant digit of some draw (low two bits kept, bit 3 set) |
| Api.Interpret | src/App.jsx:21-30 | a call succeeds exactly on a 2xx status and yields the body, an empty object if the body is not JSON; otherwise it fails with the transport's message or the error-message choice, and a `null` error body makes the read of `message` throw instead |
| Api.ErrorMessage | src/App.jsx:28 | the error is the server's non-empty `message`, or else "Error " followed by the status; on a `null` body it is the `TypeError` of reading `message` |
| Api.FallbackNamesStatus | src/App.jsx:28 | the fallback is "Error " followed by decimal digits that read back as the status code |
| JsValues.Read | src/App.jsx:28 | reading a property throws exactly when the value is `null`, with the message naming the key; otherwise it yields the object's property, or `undefined` when there is none |
| JsValues.Or | src/App.jsx:99 | JavaScript's logical or gives its left operand when that is truthy and its right one otherwise |
| JsValues.Coalesce | src/App.jsx:217 | `a ?? b` is `a` unless it is `undefined` or `null`, then `b` |
| Strings.DecimalRoundTrip | src/App.jsx:28 | the decimal numeral of a number reads back as that number |
| Strings.TrimStart | src/App.jsx:84 | what is dropped from the front is all whitespace, and what is left does not start with whitespace |
| Strings.TrimStartSuffix | src/App.jsx:84 | what `TrimStart` leaves is the rest of the input after the dropped part |
| Strings.TrimEnd | src/App.jsx:84 | removes exactly the trailing JavaScript whitespace and stops at a non-whitespace character |
| Strings.Trim | src/App.jsx:84 | `trim` gives a string with whitespace at neither end, no longer than its input, and empty exactly when the input is all whitespace |
| Strings.TrimShape | src/App.jsx:86 | `trim` gives a slice of its input that neither starts nor ends with whitespace, with only whitespace cut on either side |
| Strings.TrimUnique | src/App.jsx:86 | trimming whitespace + a trimmed middle + whitespace gives exactly the middle |
| Strings.TrimIdempotent | src/App.jsx:331 | trimming twice is trimming once |
| Strings.Lower | src/App.jsx:251 | lower-casing keeps the length and maps each character independently |
| Strings.LowerNormalises | src/App.jsx:251 | a lower-cased string has no upper-case ASCII letter and lower-casing it again changes nothing |
| Validation.IsValidEmail | src/App.jsx:37 | an accepted address holds an '@', has no whitespace anywhere and is at least five characters long |
| Validation.EmailCharacterisation | src/App.jsx:37 | an address is accepted exactly when it is: one or more characters other than whitespace and '@', then '@', one or more, '.', one or more |
| Validation.EmailSound | src/App.jsx:37 | every accepted address splits into the three parts the pattern names |
| Validation.EmailComplete | src/App.jsx:37 | every string that splits that way is accepted |
| Validation.IndexOf | src/App.jsx:37 | finds the first occurrence of a character, or reports that there is none |
| Auth.FormError | src/App.jsx:84-89 | the form error is the name message exactly when registering with a trimmed name under 3 UTF-16 units; otherwise the email message exactly when the trimmed email is invalid; otherwise the password message exactly when the password is under 6 units; no error exactly when all three pass |
| Auth.Utf16Length | src/App.jsx:84 | a string's `length` counts between one and two units per character |
| Auth.LoginIgnoresName | src/App.jsx:84 | in login mode the name field never affects validation |
| Auth.Submit | src/App.jsx:81-106 | a failed check sets its message and sends nothing; a request is sent exactly when the checks pass; registering sends the form and, on success, switches to login with the name cleared; logging in sends the trimmed email and the password; a server error, or the `TypeError` of a `null` reply, is shown as the form error; a user is handed on only after a successful login, and it is the identity read from the reply, with the form error cleared |
| Auth.LoginIdentity | src/App.jsx:99 | the adopted user is the reply's `user` when truthy, otherwise an object holding only the typed email; a `null` reply throws |
| Auth.LoginFallsBackToTypedEmail | src/App.jsx:98-99 | a login whose reply has no user adopts the email exactly as typed, whitespace included |
| Auth.Logout | src/App.jsx:591-594 | the logout call is sent, and the session ends and the dashboard closes whatever it returns |
| Auth.SessionCycle | src/App.jsx:782-793 | a completed login always shows the dashboard, because the adopted identity is truthy, and a logout after it always returns to the sign-in screen |
| Accounts.BalanceOf | src/App.jsx:217 | the balance is the reply's `balance` unless it is null or undefined, then `data.balance` under the same rule, then 0; a `null` reply throws |
| Accounts.FetchBalance | src/App.jsx:213-223 | after a fetch the balance is never null: it is the reply's balance, or the dash on failure, a `null` reply included |
| Accounts.MayClose | src/App.jsx:234 | the close guard lets through only the number 0, `null` and the dash |
| Accounts.Close | src/App.jsx:233-249 | closing is refused exactly when the balance is not 0, null or the dash; a delete is sent exactly when it is not refused and the user confirms; the outcome carries the delete's error message |
| Accounts.CloseAfterFetch | src/App.jsx:217-234 | after a fetch, closing is refused exactly when the fetch succeeded with a balance other than 0 and the dash; a failed fetch never blocks closing |
| Accounts.NonZeroBalanceRefused | src/App.jsx:234-236 | a non-zero numeric balance is refused and no delete is sent, whatever the user answers |
| Accounts.StatusLabel | src/App.jsx:251 | the label has no upper-case letter; a missing or empty status reads `active`; any other status is lower-cased |
| Accounts.TilesPartition | src/App.jsx:699-701 | every account is counted in exactly one of the Active and Frozen tiles, so together they make the total |
| Accounts.AccountList | src/App.jsx:568 | the list is truthy and is taken from a truthy `accounts`, else a truthy `data`, else the reply itself when truthy, else `[]`; a `null` reply throws |
| Accounts.EnvelopeShapes | src/App.jsx:568 | a reply `{accounts: L}`, `{data: L}` or a bare array `L` gives `L`, even when `L` is empty |
| Accounts.ObjectWithoutListKept | src/App.jsx:568 | a reply object with neither list gives the object itself, never `[]` |
| Accounts.LoadAccounts | src/App.jsx:564-574 | a successful load replaces the list with the one read from the reply; a failure, a `null` reply included, keeps the list and raises an error toast |
| Accounts.LoadReplaces | src/App.jsx:568 | after a successful load of a reply that is not `null` the list does not depend on the previous one |
| Accounts.CreateAccount | src/App.jsx:578-589 | a failed creation raises only its error; a successful one reloads the list, reports a failed reload, and always ends with the success toast |
| Transfer.AddressProblem | src/App.jsx:330-331 | an address is refused exactly when its trimmed form is invalid: an empty one with the enter-an-email message, any other with the invalid-format message |
| Transfer.StartVerify | src/App.jsx:329-335 | a refused address raises its toast and changes nothing; a valid one clears the verified recipient, raises no toast, and sends the lookup to the target interpolated from the trimmed address |
| Transfer.StartVerifyEscaped | src/App.jsx:335 | the same start with the address escaped: a lookup is sent exactly for a valid address, and it reaches the route as exactly the trimmed address |
| Transfer.Settle | src/App.jsx:336-341 | an answer sends nothing and keeps the step and kind; a found recipient becomes the verified one with its first account as the destination and the success toast; a failure empties the destination and shows the error |
| Transfer.VerifyEmail | src/App.jsx:329-345 | an empty or invalid trimmed email is rejected with its message, no lookup and no change; a valid one is looked up through the unescaped target; success stores the recipient and selects its first account; failure clears the recipient and the destination and shows the error |
| Transfer.FirstAccount | src/App.jsx:337 | the first account of the recipient, or no destination when the recipient has none |
| Transfer.Submit | src/App.jsx:347-381 | a NaN or non-positive amount is rejected in every step with nothing changed; in the form step nothing is sent, and the step moves to confirm exactly when every destination guard holds, otherwise nothing changes and an error is shown; past the form step exactly one transfer of the parsed amount is sent with a fresh version-4 key, only the step changes, to success on success and back to form on failure |
| Transfer.Reject | src/App.jsx:330-331 | a rejection changes nothing, sends nothing and raises an error toast with its message |
| Transfer.Back | src/App.jsx:444 | Back returns to the form and changes nothing else |
| Transfer.ChooseKind | src/App.jsx:461 | switching the transfer type clears the destination and changes nothing else |
| Transfer.EditEmail | src/App.jsx:503 | editing the recipient email drops any verified recipient and changes nothing else |
| Transfer.EditField | src/App.jsx:327 | editing a form field sets that field and nothing else |
| Transfer.FailedSubmitKeepsDraft | src/App.jsx:375-377 | a failed transfer returns to the form with source, destination and amount intact, and submitting again from there sends nothing until it is confirmed again |
| Transfer.DistinctAttemptsDistinctKeys | src/App.jsx:365 | two attempts whose draws differ in a kept bit send different keys |
| Transfer.VerifyIdempotent | src/App.jsx:329-345 | verifying twice with the same answer leaves the same state as verifying once |
| Transfer.LookupAsksAboutAddress | src/App.jsx:335 | the lookup of a valid address with none of '%', '?', '#', '/' and '\' reaches the route as exactly the trimmed address |
| Transfer.LookupLosesFragment | src/App.jsx:335 | the lookup of the valid address `a#a@a.a` reaches the route as just `a` |
| Transfer.FailedVerifyClearsRecipient | src/App.jsx:333-341 | a failed lookup of a valid address leaves no recipient and no destination behind |
| TransferFlow.Offered | src/App.jsx:403-547 | on the confirmation screen only Back and Confirm are offered, and nothing on the success screen, apart from a pending lookup's answer; an answer comes only while a lookup is pending; Verify only on the external form with no lookup pending |
| TransferFlow.Handle | src/App.jsx:336-341 | the source applies a lookup's answer to the modal as it is when the answer arrives; the corrected client drops an answer once the modal no longer shows the external form for the address it was sent for; no event other than Verify and an answer changes what is pending |
| TransferFlow.SubmitConfirms | src/App.jsx:353-360 | submitting a draft from the form that passes every guard moves it to the confirmation screen and sends nothing |
| TransferFlow.LookupStarts | src/App.jsx:332-335 | in the source, Verify on a valid address clears the recipient, sends the lookup to the unescaped target and marks it pending for that address |
| TransferFlow.Run | src/App.jsx:318-381 | a run sends at most one call per event, and the empty run changes nothing |
| TransferFlow.HandlePreserves | src/App.jsx:347-381 | each event the corrected client is offered keeps the modal consistent, and any transfer it sends has a positive amount, the draft's accounts, a chosen destination, a destination other than the source for an own transfer, one of the recipient's accounts for an external one, and a version-4 key |
| TransferFlow.RunSafe | src/App.jsx:353-372 | over any run of offered events of the corrected client from a consistent state, every state reached is consistent and every transfer sent is safe in that sense |
| TransferFlow.SentTransfersAreSafe | src/App.jsx:318-381 | every transfer the corrected client sends from a freshly opened modal is safe |
| TransferFlow.TimelyRunsAgree | src/App.jsx:336-341 | when every lookup answers while it is still current, dropping stale answers changes nothing |
| TransferFlow.TimelySourceRunsAreSafe | src/App.jsx:318-381 | every transfer the source sends from a freshly opened modal is safe when every lookup answers in time |
| TransferFlow.LateReplyRedirects | src/App.jsx:336-337 | in the source, a lookup that answers after an own transfer was confirmed rewrites its destination: the transfer is sent to the recipient's account, which is not one of the user's |
| RecipientPath.PathPart | src/App.jsx:335 | the sent path is the longest prefix of the target without '?' or '#' |
| RecipientPath.ResolveTargetAsWritten | src/App.jsx:335 | the unescaped target reaches the route as exactly the trimmed address when that address is valid and has none of '%', '?', '#', '/' and '\' |
| RecipientPath.PlainRoutes | src/App.jsx:335 | a segment with an '@' and none of those characters reaches the route unchanged |
| RecipientPath.AsWrittenLosesFragment | src/App.jsx:335 | with the email unescaped, the valid address `c#c@c.c` reaches the lookup route as just `c` |
| RecipientPath.DotSegmentsUnrouted | src/App.jsx:335 | an empty last segment, `.` or `..` in any spelling never reaches the route |
| RecipientPath.EncodeInert | src/App.jsx:335 | the escaped email contains no slash, backslash, '?' or '#' |
| RecipientPath.DecodeEncode | src/App.jsx:335 | percent-decoding undoes the escaping |
| RecipientPath.ResolveTarget | src/App.jsx:335 | with the email escaped, the route receives exactly the trimmed address of any valid email, whatever characters it contains |

## Left out

- `fetch` itself: the URL base, credentials, headers and request bodies in `API.req`. A reply is an
  input, and `Api.Interpret` models only how the response becomes a value or an error.
- The backend. The `/accounts/resolve/:email` route is read as standard URL routing with one
  percent-decoded segment (RFC 3986 sections 2.1 and 3.3-3.5). The server's code is not part of
  this model.
- `parseFloat`: an oracle parameter. NaN is `None`. Infinity and rounding are not modelled.
- `toLocaleString` currency formatting, `slice(-8).toUpperCase()` short ids, and all JSX, CSS,
  icons, the sidebar and view switching: presentation only.
- The toast queue, `Date.now` ids and `setTimeout` expiry: timing. A handler's toast is part of its
  result.
- Concurrency: each handler runs to completion in one step, except `handleVerifyEmail`, whose
  lookup's answer is an event of its own (`TransferFlow`). A transfer's reply, the balance fetch,
  the close and the account creation are taken to arrive at once. The loading and closing flags, the
  buttons they disable, and the order of concurrent refreshes and reloads are not modelled.
- HTML constraint validation (`required`, `min`, `step` on the inputs): the browser's, not the
  program's. The `Submit` guards are modelled as the handler states them.
- `window.confirm` is a boolean input. The clipboard copy is left out.
- The account id `account.id || account._id` is left out: ids are plain strings in the model.
- `vite.config.js`: build configuration, no logic.
- Transfer.FirstAccount: a recipient with no accounts gives the destination `undefined` in the source
  and `""` in the model. The two agree wherever the destination is tested for truthiness, but not on
  the confirmation screen. There src/App.jsx:426 reads `form.toAccountId.slice(-8)`, which throws on
  `undefined`, so the screen fails to render and no transfer can be sent. The source reaches that
  state through a late answer naming a recipient with no accounts. The model still offers Back and
  Confirm there, and Confirm posts a transfer to `""`.
- Transfer.Settle: a lookup reply without `accountIds`, or a `null` one, makes the source throw
  inside the success path after the recipient was stored. Only well-formed `{name, accountIds}`
  replies are modelled.
- TransferFlow.Offered: the modal is opened fresh each time (`Initial`). Closing it is not an event,
  and neither is a click while a transfer is in flight.
- JsValues.NullReadMessage: the `TypeError` message is V8's wording. Other engines word it
  differently.
- Api.HasMessage: a truthy `message` that is not a string is not modelled as a message.
- Api.ErrorMessage: as above, only string messages are used.
- Strings.Lower: ASCII letters only. JavaScript's `toLowerCase` maps all of Unicode, including the
  final-sigma rule and characters such as U+0130 whose lower case is longer. The model keeps the
  length and changes only `A`-`Z`.
- Accounts.StatusLabel: `toLowerCase` is modelled for ASCII letters only, and a status that is not a
  string is not modelled.
- Accounts.MayClose: numbers are compared as exact reals. `-0` and NaN are not distinguished.
- RecipientPath.PercentDecode: escapes of bytes above 0x7F (multi-byte UTF-8) are not decoded.
  Non-ASCII characters are carried through literally.
- RecipientPath.EncodeSegment: escapes only '%', '/', '\', '?' and '#'. `encodeURIComponent` escapes
  these and more, including non-ASCII characters as UTF-8, and those other escapes are not modelled.
- Strings.IsWhitespace: the space separators (Unicode category Zs) are listed explicitly. A later
  Unicode revision that adds one is not tracked.

## Findings

| source | as written | input that shows it | evidently intended | confidence | as-written member | corrected member |
|---|---|---|---|---|---|---|
| src/App.jsx:335 | the lookup URL is `/accounts/resolve/${recipientEmail.trim()}` with the email unescaped, so a '#' or '?' in it ends the path and a '/' or '\' splits the segment | `a#a@a.a`, which `isValidEmail` accepts: the route receives `a`, because the rest is sent as a fragment or not sent at all | the route receives the address that was verified: escape at least '%', '/', '\', '?' and '#' in the email, as `encodeURIComponent` does; the corrected member escapes exactly these five | medium; not executed | Transfer.LookupLosesFragment | Transfer.StartVerifyEscaped |
| src/App.jsx:336-337 | the lookup's answer is applied to the modal as it is when the answer arrives, whatever the user did meanwhile; the type toggle and the confirmation screen stay usable while the lookup is pending | start a lookup, switch to an own transfer, confirm it, let the answer arrive on the confirmation screen, press Confirm: the transfer goes to the recipient's first account, which was never chosen | an answer counts only while the modal still shows the external form for the address it was sent for | medium; not executed | TransferFlow.LateReplyRedirects | TransferFlow.SentTransfersAreSafe |
