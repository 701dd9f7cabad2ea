/**
  Runs of the transfer modal. Each event is one thing the rendered modal lets
  the user do (src/App.jsx:403-547 decides what is on screen in each step), or
  the answer to the recipient lookup arriving; an event that is not possible at
  that moment leaves the state alone. `handleVerifyEmail` awaits its lookup,
  and while it is pending only the Verify button is disabled: the answer is
  applied to whatever the modal has become by then.

  The source applies a late answer unconditionally (`LateReplyRedirects` shows
  a confirmed own transfer sent to the recipient's account). A client that
  ignores an answer once the modal has left the external form for that address
  sends, over any run, only transfers that passed the form-step guards, even
  though the confirm-step submission re-checks only the amount (`RunSafe`);
  when every answer arrives in time the source behaves exactly like it
  (`TimelyRunsAgree`).
*/
module TransferFlow {
  import opened Wrappers
  import opened JsValues
  import opened Strings
  import opened Transfer
  import IdempotencyKey
  import IdempotencyKeyFormat
  import Validation
  import RecipientPath

  datatype Event =
    | PickKind(kind: Kind)
    | Type(field: Field, value: string)
    | TypeEmail(email: string)
    | PressVerify
    | LookupAnswers(lookup: Result<Recipient>)
    | PressSubmit(draws: IdempotencyKey.Draws, posted: Result<Json>)
    | PressBack

  /** The modal and the lookup in flight, if any, with the address it was sent for
      (`resolving` is true exactly while `pending` is `Some`). */
  datatype Flow = Flow(modal: Modal, pending: Option<string>)

  /** Which client runs the modal: the source escapes nothing and applies every answer; the
      corrections escape the address into the target and drop an answer that comes too late. */
  datatype Client = Client(escapeTarget: bool, ignoreStaleAnswers: bool)

  const AsWritten: Client := Client(false, false)
  const Corrected: Client := Client(true, true)

  /** Whether `e` can happen in `f`, given the ids of the user's own accounts. The selects offer only
      their options: own accounts (the source excluded from the destination) or the verified
      recipient's accounts, and the empty placeholder. Nothing is offered on the success screen and
      nothing but Back and Confirm on the confirmation screen; a pending answer can arrive at any time. */
  predicate Offered(f: Flow, own: seq<string>, e: Event)
    ensures Offered(f, own, e) && f.modal.step != Form ==> e.LookupAnswers? || (f.modal.step == Confirm && (e.PressBack? || e.PressSubmit?))
    ensures Offered(f, own, e) && e.LookupAnswers? ==> f.pending.Some?
    ensures Offered(f, own, e) && e.PressVerify? ==> f.pending.None? && f.modal.kind == External
  {
    if e.LookupAnswers? then f.pending.Some?
    else
      var m := f.modal;
      match m.step
      case Success => false
      case Confirm => e.PressBack? || e.PressSubmit?
      case Form =>
        match e
        case PickKind(_) => true
        case Type(FromAccount, v) => v == "" || v in own
        case Type(ToAccountId, v) =>
          if m.kind == Own then v == "" || (v in own && v != m.fromAccount)
          else m.resolvedUser.Some? && (v == "" || v in m.resolvedUser.value.accountIds)
        case Type(Amount, _) => true
        case TypeEmail(_) => m.kind == External
        case PressVerify => m.kind == External && f.pending.None?
        case PressSubmit(_, _) => true
        case PressBack => false
  }

  /** An answer is still current while the modal shows the external form for the address it was sent for. */
  predicate Current(f: Flow) {
    f.pending.Some? && f.modal.step == Form && f.modal.kind == External && f.modal.recipientEmail == f.pending.value
  }

  /** What one event does: the flow afterwards and the call it made. */
  datatype Step = Step(flow: Flow, call: Option<Call>)

  /** The handler an offered event runs. */
  function Handle(f: Flow, parse: string -> Option<real>, c: Client, e: Event): (r: Step)
    ensures e.LookupAnswers? && c.ignoreStaleAnswers && !Current(f) ==> r == Step(f.(pending := None), None)
    ensures e.LookupAnswers? && (!c.ignoreStaleAnswers || Current(f)) ==>
              r == Step(Flow(Settle(f.modal, e.lookup).modal, None), None)
    ensures !e.LookupAnswers? && !e.PressVerify? ==> r.flow.pending == f.pending
  {
    var m := f.modal;
    match e
    case PickKind(kind) => Step(f.(modal := ChooseKind(m, kind)), None)
    case Type(field, value) => Step(f.(modal := EditField(m, field, value)), None)
    case TypeEmail(email) => Step(f.(modal := EditEmail(m, email)), None)
    case PressVerify => StartLookup(f, c)
    case LookupAnswers(lookup) => Answer(f, c, lookup)
    case PressSubmit(draws, posted) => SubmitStep(f, parse, draws, posted)
    case PressBack => Step(f.(modal := Back(m)), None)
  }

  /** The lookup's answer arriving: applied by the source whatever the modal shows by then, dropped by
      a client that ignores stale answers unless it is still current. */
  function Answer(f: Flow, c: Client, lookup: Result<Recipient>): Step {
    if c.ignoreStaleAnswers && !Current(f) then Step(f.(pending := None), None)
    else Step(Flow(Settle(f.modal, lookup).modal, None), None)
  }

  /** Submit, in either step. */
  function SubmitStep(f: Flow, parse: string -> Option<real>, draws: IdempotencyKey.Draws, posted: Result<Json>): Step {
    var r := Submit(f.modal, parse, draws, posted);
    Step(f.(modal := r.modal), r.call)
  }

  /** The form step's submission of a draft that passes every guard moves to the confirmation screen. */
  lemma SubmitConfirms(f: Flow, parse: string -> Option<real>, c: Client, draws: IdempotencyKey.Draws, posted: Result<Json>)
    requires f.modal.step == Form && AmountAccepted(parse(f.modal.amount)) && DestinationReady(f.modal)
    ensures Handle(f, parse, c, PressSubmit(draws, posted)) == Step(f.(modal := f.modal.(step := Confirm)), None)
  {
    var r := Submit(f.modal, parse, draws, posted);
    assert r.modal == f.modal.(step := Confirm) && r.call.None?;
  }

  /** Verify runs the handler's first half. */
  lemma VerifyStarts(f: Flow, parse: string -> Option<real>, c: Client)
    ensures Handle(f, parse, c, PressVerify) == StartLookup(f, c)
  {
  }

  /** Verify on a valid address, in the source's client, sends the lookup and marks it pending. */
  lemma LookupStarts(f: Flow, c: Client)
    requires !c.escapeTarget && Validation.IsValidEmail(Trim(f.modal.recipientEmail))
    ensures StartLookup(f, c)
            == Step(Flow(f.modal.(resolvedUser := None), Some(f.modal.recipientEmail)),
                    Some(Resolve(RecipientPath.ResolveTargetAsWritten(f.modal.recipientEmail))))
  {
    var r := StartVerify(f.modal);
    assert r.call.Some?;
  }

  /** Verify: the handler's first half, with the lookup marked pending for the address it was sent for. */
  function StartLookup(f: Flow, c: Client): Step {
    var r := if c.escapeTarget then StartVerifyEscaped(f.modal) else StartVerify(f.modal);
    Step(Flow(r.modal, if r.call.Some? then Some(f.modal.recipientEmail) else None), r.call)
  }

  /** A call, with the state of the modal that sent it. */
  datatype Sent = Sent(sender: Modal, call: Call)

  /** The calls one step contributes to a run. */
  function SentBy(m: Modal, step: Step): seq<Sent> {
    if step.call.Some? then [Sent(m, step.call.value)] else []
  }

  /** The flow after a run of events and the calls sent along the way, in order: at most one per event. */
  function Run(f: Flow, parse: string -> Option<real>, own: seq<string>, c: Client, events: seq<Event>): (r: (Flow, seq<Sent>))
    ensures |r.1| <= |events|
    ensures events == [] ==> r == (f, [])
    decreases |events|
  {
    if events == [] then (f, [])
    else if !Offered(f, own, events[0]) then Run(f, parse, own, c, events[1..])
    else
      var step := Handle(f, parse, c, events[0]);
      var rest := Run(step.flow, parse, own, c, events[1..]);
      (rest.0, SentBy(f.modal, step) + rest.1)
  }

  /** A run whose first event is offered: that event's step, then the rest of the run. */
  lemma RunHead(f: Flow, parse: string -> Option<real>, own: seq<string>, c: Client, e: Event, rest: seq<Event>)
    requires Offered(f, own, e)
    ensures var step := Handle(f, parse, c, e);
            Run(f, parse, own, c, [e] + rest) == (Run(step.flow, parse, own, c, rest).0, SentBy(f.modal, step) + Run(step.flow, parse, own, c, rest).1)
  {
    assert ([e] + rest)[1..] == rest;
  }

  /** What holds of every state a run of the corrected client can reach: a confirmation screen only
      ever shows a draft that passed the form guards, an own destination is one of the user's
      accounts, and an external one is one of the verified recipient's. */
  predicate Consistent(m: Modal, parse: string -> Option<real>, own: seq<string>) {
    && (m.step == Confirm ==> AmountAccepted(parse(m.amount)) && DestinationReady(m))
    && (m.kind == Own && m.toAccountId != "" ==> m.toAccountId in own)
    && (m.kind == External && m.resolvedUser.Some? && m.toAccountId != "" ==>
          m.toAccountId in m.resolvedUser.value.accountIds)
  }

  /** A transfer call that deserves to be sent: a positive amount, the draft's accounts, a destination
      that is chosen, one of the user's own other accounts for an own transfer and the recipient's for
      an external one, and a version-4 key. */
  predicate SafeTransfer(sender: Modal, parse: string -> Option<real>, own: seq<string>, c: Call) {
    c.PostTransaction? ==>
      && c.amount > 0.0 && Some(c.amount) == parse(sender.amount)
      && c.fromAccount == sender.fromAccount && c.toAccount == sender.toAccountId && c.toAccount != ""
      && (sender.kind == Own ==> c.toAccount != c.fromAccount && c.toAccount in own)
      && (sender.kind == External ==> sender.resolvedUser.Some? && c.toAccount in sender.resolvedUser.value.accountIds)
      && IdempotencyKeyFormat.IsV4Key(c.idempotencyKey)
  }

  /** One offered event of the corrected client keeps the modal consistent, and any transfer it sends is safe. */
  lemma HandlePreserves(f: Flow, parse: string -> Option<real>, own: seq<string>, c: Client, e: Event)
    requires c.ignoreStaleAnswers && Consistent(f.modal, parse, own) && Offered(f, own, e)
    ensures Consistent(Handle(f, parse, c, e).flow.modal, parse, own)
    ensures Handle(f, parse, c, e).call.Some? ==> SafeTransfer(f.modal, parse, own, Handle(f, parse, c, e).call.value)
  {
    match e
    case LookupAnswers(lookup) =>
      if Current(f) && lookup.Ok? {
        var ids := lookup.value.accountIds;
        assert ids != [] ==> FirstAccount(ids) in ids;
      }
    case _ =>
  }

  /** Every transfer any run of the corrected client sends is safe, and every state it reaches is consistent. */
  lemma {:induction false} RunSafe(f: Flow, parse: string -> Option<real>, own: seq<string>, c: Client, events: seq<Event>)
    requires c.ignoreStaleAnswers && Consistent(f.modal, parse, own)
    ensures Consistent(Run(f, parse, own, c, events).0.modal, parse, own)
    ensures forall i :: 0 <= i < |Run(f, parse, own, c, events).1| ==>
              SafeTransfer(Run(f, parse, own, c, events).1[i].sender, parse, own, Run(f, parse, own, c, events).1[i].call)
    decreases |events|
  {
    if events != [] {
      if !Offered(f, own, events[0]) {
        RunSafe(f, parse, own, c, events[1..]);
      } else {
        var step := Handle(f, parse, c, events[0]);
        HandlePreserves(f, parse, own, c, events[0]);
        RunSafe(step.flow, parse, own, c, events[1..]);
        var rest := Run(step.flow, parse, own, c, events[1..]);
        var head := SentBy(f.modal, step);
        assert Run(f, parse, own, c, events) == (rest.0, head + rest.1);
        forall i | 0 <= i < |head + rest.1| ensures SafeTransfer((head + rest.1)[i].sender, parse, own, (head + rest.1)[i].call) {
          if i >= |head| {
            assert (head + rest.1)[i] == rest.1[i - |head|];
          }
        }
      }
    }
  }

  /** The theorem for a modal as it opens. */
  lemma SentTransfersAreSafe(parse: string -> Option<real>, own: seq<string>, events: seq<Event>)
    ensures forall s | s in Run(Flow(Initial, None), parse, own, Corrected, events).1 :: SafeTransfer(s.sender, parse, own, s.call)
  {
    RunSafe(Flow(Initial, None), parse, own, Corrected, events);
  }

  /** Every lookup answer in the run arrives while it is still current. */
  predicate Timely(f: Flow, parse: string -> Option<real>, own: seq<string>, c: Client, events: seq<Event>)
    decreases |events|
  {
    if events == [] then true
    else if !Offered(f, own, events[0]) then Timely(f, parse, own, c, events[1..])
    else (events[0].LookupAnswers? ==> Current(f)) && Timely(Handle(f, parse, c, events[0]).flow, parse, own, c, events[1..])
  }

  /** When every answer is timely, dropping stale answers changes nothing: such runs of the source
      are runs of a client for which `RunSafe` holds. */
  lemma {:induction false} TimelyRunsAgree(f: Flow, parse: string -> Option<real>, own: seq<string>, c: Client, events: seq<Event>)
    requires Timely(f, parse, own, c, events)
    ensures Run(f, parse, own, c, events) == Run(f, parse, own, c.(ignoreStaleAnswers := true), events)
    ensures Timely(f, parse, own, c.(ignoreStaleAnswers := true), events)
    decreases |events|
  {
    var g := c.(ignoreStaleAnswers := true);
    if events != [] {
      if !Offered(f, own, events[0]) {
        TimelyRunsAgree(f, parse, own, c, events[1..]);
      } else {
        assert Handle(f, parse, c, events[0]) == Handle(f, parse, g, events[0]);
        TimelyRunsAgree(Handle(f, parse, c, events[0]).flow, parse, own, c, events[1..]);
      }
    }
  }

  /** Every transfer a run of the source sends from a freshly opened modal is safe when every lookup
      answers in time. */
  lemma TimelySourceRunsAreSafe(parse: string -> Option<real>, own: seq<string>, events: seq<Event>)
    requires Timely(Flow(Initial, None), parse, own, AsWritten, events)
    ensures forall s | s in Run(Flow(Initial, None), parse, own, AsWritten, events).1 :: SafeTransfer(s.sender, parse, own, s.call)
  {
    TimelyRunsAgree(Flow(Initial, None), parse, own, AsWritten, events);
    RunSafe(Flow(Initial, None), parse, own, AsWritten.(ignoreStaleAnswers := true), events);
  }

  /** A lookup started for `email`, then an own transfer of `amount` from `from` to `to` confirmed
      while it is pending; the answer, naming the account `rid`, arrives on the confirmation screen. */
  function RaceEvents(email: string, from: string, to: string, amount: string, rid: string,
                      draws: IdempotencyKey.Draws, posted: Result<Json>): seq<Event> {
    [PickKind(External)] + ([TypeEmail(email)] + ([PressVerify] + ([PickKind(Own)] +
    ([Type(FromAccount, from)] + ([Type(ToAccountId, to)] + ([Type(Amount, amount)] + ([PressSubmit(draws, posted)] +
    ([LookupAnswers(Ok(Recipient("", [rid])))] + [PressSubmit(draws, posted)]))))))))
  }

  /** In the source, the late answer rewrites the confirmed destination: the own transfer the user
      confirmed to `to` is sent to the recipient's account `rid`, which is not the user's. */
  lemma LateReplyRedirects(parse: string -> Option<real>, email: string, from: string, to: string, amount: string, rid: string,
                           draws: IdempotencyKey.Draws, posted: Result<Json>)
    requires Validation.IsValidEmail(Trim(email)) && AmountAccepted(parse(amount))
    requires from != to && from != "" && to != "" && rid != from && rid != to && rid != ""
    ensures var sent := Run(Flow(Initial, None), parse, [from, to], AsWritten, RaceEvents(email, from, to, amount, rid, draws, posted)).1;
            && |sent| == 2
            && sent[1].sender.kind == Own
            && sent[1].call == PostTransaction(from, rid, parse(amount).value, IdempotencyKeyFormat.Generate(draws))
            && !SafeTransfer(sent[1].sender, parse, [from, to], sent[1].call)
  {
    var own := [from, to];
    var c := AsWritten;
    var m2 := Initial.(kind := External, recipientEmail := email);
    var m8 := m2.(kind := Own, fromAccount := from, toAccountId := to, amount := amount, step := Confirm);
    var m9 := m8.(resolvedUser := Some(Recipient("", [rid])), toAccountId := rid);
    var post := PostTransaction(from, rid, parse(amount).value, IdempotencyKeyFormat.Generate(draws));
    var lookup := Resolve(RecipientPath.ResolveTargetAsWritten(email));
    var tail := RaceTail(parse, own, m9, post, draws, posted);
    RaceConfirmed(parse, own, m2, m8, m9, email, from, to, amount, rid, draws, posted, tail);
    RaceStarts(parse, own, m2, m8, m9, email, from, to, amount, rid, draws, posted, tail, lookup);
    var sent := [Sent(m2, lookup)] + tail.1;
    assert Run(Flow(Initial, None), parse, own, c, RaceEvents(email, from, to, amount, rid, draws, posted)).1 == sent;
    assert |sent| == 2 && sent[1] == Sent(m9, post);
    assert rid !in own;
  }

  /** The last submission, from the confirmation screen the late answer rewrote, sends `post`. */
  function RaceTail(parse: string -> Option<real>, own: seq<string>, m9: Modal, post: Call,
                    draws: IdempotencyKey.Draws, posted: Result<Json>): (r: (Flow, seq<Sent>))
    requires m9.step == Confirm && AmountAccepted(parse(m9.amount))
    requires post == PostTransaction(m9.fromAccount, m9.toAccountId, parse(m9.amount).value, IdempotencyKeyFormat.Generate(draws))
    ensures r.1 == [Sent(m9, post)]
    ensures r == Run(Flow(m9, None), parse, own, AsWritten, [PressSubmit(draws, posted)])
  {
    var last := Handle(Flow(m9, None), parse, AsWritten, PressSubmit(draws, posted));
    assert last.call == Some(post);
    RunHead(Flow(m9, None), parse, own, AsWritten, PressSubmit(draws, posted), []);
    assert [PressSubmit(draws, posted)] + [] == [PressSubmit(draws, posted)];
    assert SentBy(m9, last) + [] == [Sent(m9, post)];
    (last.flow, [Sent(m9, post)])
  }

  /** From the moment the lookup is pending: the own transfer is confirmed, the answer lands, the
      confirmed transfer is sent to the recipient's account. */
  lemma RaceConfirmed(parse: string -> Option<real>, own: seq<string>, m2: Modal, m8: Modal, m9: Modal,
                      email: string, from: string, to: string, amount: string, rid: string,
                      draws: IdempotencyKey.Draws, posted: Result<Json>, tail: (Flow, seq<Sent>))
    requires own == [from, to] && from != to && to != "" && AmountAccepted(parse(amount))
    requires m2 == Initial.(kind := External, recipientEmail := email)
    requires m8 == m2.(kind := Own, fromAccount := from, toAccountId := to, amount := amount, step := Confirm)
    requires m9 == m8.(resolvedUser := Some(Recipient("", [rid])), toAccountId := rid)
    requires tail == Run(Flow(m9, None), parse, own, AsWritten, [PressSubmit(draws, posted)])
    ensures Run(Flow(m2, Some(email)), parse, own, AsWritten,
                [PickKind(Own)] + ([Type(FromAccount, from)] + ([Type(ToAccountId, to)] + ([Type(Amount, amount)] + ([PressSubmit(draws, posted)] +
                ([LookupAnswers(Ok(Recipient("", [rid])))] + [PressSubmit(draws, posted)])))))) == tail
  {
    var c := AsWritten;
    var p := Some(email);
    var e9 := [PressSubmit(draws, posted)];
    var e8 := [LookupAnswers(Ok(Recipient("", [rid])))] + e9;
    var e7 := [PressSubmit(draws, posted)] + e8;
    var e6 := [Type(Amount, amount)] + e7;
    var e5 := [Type(ToAccountId, to)] + e6;
    var e4 := [Type(FromAccount, from)] + e5;
    var e3 := [PickKind(Own)] + e4;
    var m4 := m2.(kind := Own);
    var m5 := m4.(fromAccount := from);
    var m6 := m5.(toAccountId := to);
    var m7 := m6.(amount := amount);
    assert [] + tail.1 == tail.1;
    RunHead(Flow(m8, p), parse, own, c, LookupAnswers(Ok(Recipient("", [rid]))), e9);
    assert Handle(Flow(m8, p), parse, c, LookupAnswers(Ok(Recipient("", [rid])))) == Step(Flow(m9, None), None);
    assert Run(Flow(m8, p), parse, own, c, e8) == tail;
    RunHead(Flow(m7, p), parse, own, c, PressSubmit(draws, posted), e8);
    assert m8 == m7.(step := Confirm);
    SubmitConfirms(Flow(m7, p), parse, c, draws, posted);
    assert Run(Flow(m7, p), parse, own, c, e7) == tail;
    RunHead(Flow(m6, p), parse, own, c, Type(Amount, amount), e7);
    assert Handle(Flow(m6, p), parse, c, Type(Amount, amount)) == Step(Flow(m7, p), None);
    assert Run(Flow(m6, p), parse, own, c, e6) == tail;
    RunHead(Flow(m5, p), parse, own, c, Type(ToAccountId, to), e6);
    assert Handle(Flow(m5, p), parse, c, Type(ToAccountId, to)) == Step(Flow(m6, p), None);
    assert Run(Flow(m5, p), parse, own, c, e5) == tail;
    RunHead(Flow(m4, p), parse, own, c, Type(FromAccount, from), e5);
    assert Handle(Flow(m4, p), parse, c, Type(FromAccount, from)) == Step(Flow(m5, p), None);
    assert Run(Flow(m4, p), parse, own, c, e4) == tail;
    RunHead(Flow(m2, p), parse, own, c, PickKind(Own), e4);
    assert Handle(Flow(m2, p), parse, c, PickKind(Own)) == Step(Flow(m4, p), None);
  }

  /** Before that: the external form is opened, the address typed, and the lookup sent. */
  lemma RaceStarts(parse: string -> Option<real>, own: seq<string>, m2: Modal, m8: Modal, m9: Modal,
                   email: string, from: string, to: string, amount: string, rid: string,
                   draws: IdempotencyKey.Draws, posted: Result<Json>, tail: (Flow, seq<Sent>), lookup: Call)
    requires Validation.IsValidEmail(Trim(email))
    requires m2 == Initial.(kind := External, recipientEmail := email)
    requires lookup == Resolve(RecipientPath.ResolveTargetAsWritten(email))
    requires Run(Flow(m2, Some(email)), parse, own, AsWritten,
                [PickKind(Own)] + ([Type(FromAccount, from)] + ([Type(ToAccountId, to)] + ([Type(Amount, amount)] + ([PressSubmit(draws, posted)] +
                ([LookupAnswers(Ok(Recipient("", [rid])))] + [PressSubmit(draws, posted)])))))) == tail
    ensures Run(Flow(Initial, None), parse, own, AsWritten, RaceEvents(email, from, to, amount, rid, draws, posted))
            == (tail.0, [Sent(m2, lookup)] + tail.1)
  {
    var c := AsWritten;
    var e3 := [PickKind(Own)] + ([Type(FromAccount, from)] + ([Type(ToAccountId, to)] + ([Type(Amount, amount)] + ([PressSubmit(draws, posted)] +
              ([LookupAnswers(Ok(Recipient("", [rid])))] + [PressSubmit(draws, posted)])))));
    var e2 := [PressVerify] + e3;
    var e1 := [TypeEmail(email)] + e2;
    var m1 := Initial.(kind := External);
    VerifyStarts(Flow(m2, None), parse, c);
    LookupStarts(Flow(m2, None), c);
    assert m2.(resolvedUser := None) == m2;
    RunHead(Flow(m2, None), parse, own, c, PressVerify, e3);
    var sent := [Sent(m2, lookup)] + tail.1;
    assert Run(Flow(m2, None), parse, own, c, e2) == (tail.0, sent);
    RunHead(Flow(m1, None), parse, own, c, TypeEmail(email), e2);
    assert Handle(Flow(m1, None), parse, c, TypeEmail(email)) == Step(Flow(m2, None), None);
    assert [] + sent == sent;
    assert Run(Flow(m1, None), parse, own, c, e1) == (tail.0, sent);
    RunHead(Flow(Initial, None), parse, own, c, PickKind(External), e1);
    assert Handle(Flow(Initial, None), parse, c, PickKind(External)) == Step(Flow(m1, None), None);
  }
}
