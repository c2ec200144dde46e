/** The per-chat state machine of the message handler: the state tags, the
    draft expense record, and the transition taken for one message text. */
module Engine {
  import opened JsStrings
  import opened JsNumbers
  import opened Validators

  /** The `state` tag of a session. */
  datatype State = WaitingDate | WaitingAmount | WaitingMerchant | WaitingCategory | WaitingName | WaitingDetails

  /** The `data` draft of a session: the row that is finally inserted. A
      field the flow has not reached yet is absent (`None`); `merchant` and
      `details` may hold `undefined` when the message had no text. */
  datatype Draft = Draft(
    transactionDate: string,
    transactionMth: int,
    transactionAmount: Option<Amount>,
    merchant: Option<MsgText>,
    category: Option<string>,
    name: Option<string>,
    details: Option<MsgText>)

  /** One entry of `userStates`. */
  datatype Session = Session(state: State, data: Draft)

  /** The session `/add` stores: waiting for the amount, with a draft that
      holds only the date and month of the day the flow started. */
  function NewSession(today: string, month: int): (s: Session)
    ensures s.state == WaitingAmount && s.data.transactionDate == today && s.data.transactionMth == month
    ensures s.data.transactionAmount.None? && s.data.merchant.None? && s.data.category.None?
    ensures s.data.name.None? && s.data.details.None?
  {
    Session(WaitingAmount, Draft(today, month, None, None, None, None, None))
  }

  /** What one message does to a session: reject it (state and draft
      untouched, a hint is sent), advance to a new session, or finalise with
      the complete row to insert. */
  datatype Outcome = Reject | Advance(next: Session) | Finalize(row: Draft)

  /** The per-state `switch` of the message handler. */
  function Step(s: Session, t: MsgText): (o: Outcome)
  {
    match s.state
    case WaitingDate => OnDate(s, t)
    case WaitingAmount => OnAmount(s, t)
    case WaitingMerchant => Advance(Session(WaitingCategory, s.data.(merchant := Some(t))))
    case WaitingCategory => OnCategory(s, t)
    case WaitingName => OnName(s, t)
    case WaitingDetails => Finalize(s.data.(details := Some(DetailsValue(t))))
  }

  /** `case 'WAITING_DATE'`. */
  function OnDate(s: Session, t: MsgText): (o: Outcome)
    requires s.state == WaitingDate
  {
    var text := ToJsString(t);
    if !IsDatePattern(Text(text)) then Reject
    else Advance(Session(WaitingAmount, s.data.(transactionDate := text, transactionMth := DateMonth(text))))
  }

  /** `case 'WAITING_AMOUNT'`. */
  function OnAmount(s: Session, t: MsgText): (o: Outcome)
    requires s.state == WaitingAmount
  {
    var amount := ParseAmount(t);
    if amount.None? then Reject
    else Advance(Session(WaitingMerchant, s.data.(transactionAmount := amount)))
  }

  /** `case 'WAITING_CATEGORY'`. */
  function OnCategory(s: Session, t: MsgText): (o: Outcome)
    requires s.state == WaitingCategory
  {
    var category := ResolveCategory(t);
    if category.None? then Reject
    else Advance(Session(WaitingName, s.data.(category := category)))
  }

  /** `case 'WAITING_NAME'`. */
  function OnName(s: Session, t: MsgText): (o: Outcome)
    requires s.state == WaitingName
  {
    if !IsPayer(t) then Reject
    else Advance(Session(WaitingDetails, s.data.(name := Some(t.s))))
  }

  /** The states of the flow `/add` starts, in the order they are visited. */
  const FlowOrder: seq<State> := [WaitingAmount, WaitingMerchant, WaitingCategory, WaitingName, WaitingDetails]

  /** How many accepted messages a session in `st` still needs to finish. */
  function Remaining(st: State): (n: nat)
    ensures st != WaitingDate ==> 1 <= n <= 5 && FlowOrder[5 - n] == st
    ensures st == WaitingDate ==> n == 6
  {
    match st
    case WaitingDate => 6
    case WaitingAmount => 5
    case WaitingMerchant => 4
    case WaitingCategory => 3
    case WaitingName => 2
    case WaitingDetails => 1
  }

  /** The fields of the draft, the date and month counting as one. */
  datatype Field = DateField | AmountField | MerchantField | CategoryField | NameField | DetailsField

  /** The field a state collects. */
  function Collects(st: State): Field {
    match st
    case WaitingDate => DateField
    case WaitingAmount => AmountField
    case WaitingMerchant => MerchantField
    case WaitingCategory => CategoryField
    case WaitingName => NameField
    case WaitingDetails => DetailsField
  }

  /** Two drafts hold the same value for field `f`. */
  predicate Agree(a: Draft, b: Draft, f: Field) {
    match f
    case DateField => a.transactionDate == b.transactionDate && a.transactionMth == b.transactionMth
    case AmountField => a.transactionAmount == b.transactionAmount
    case MerchantField => a.merchant == b.merchant
    case CategoryField => a.category == b.category
    case NameField => a.name == b.name
    case DetailsField => a.details == b.details
  }

  /** A complete row: every field present, the category and the payer taken
      from their fixed lists, and the month one that `/add` can record. */
  predicate Complete(d: Draft) {
    1 <= d.transactionMth <= 12
    && d.transactionAmount.Some? && d.merchant.Some?
    && d.category.Some? && Includes(Categories, d.category.value)
    && d.name.Some? && Includes(Names, d.name.value)
    && d.details.Some?
  }

  /** A session as the flow started by `/add` leaves it: never in the date
      state, and holding exactly the fields of the states already passed. */
  predicate WellFormed(s: Session) {
    var d := s.data;
    var done := 5 - Remaining(s.state);
    s.state != WaitingDate && 1 <= d.transactionMth <= 12
    && (d.transactionAmount.Some? <==> done >= 1)
    && (d.merchant.Some? <==> done >= 2)
    && (d.category.Some? <==> done >= 3) && (d.category.Some? ==> Includes(Categories, d.category.value))
    && (d.name.Some? <==> done >= 4) && (d.name.Some? ==> Includes(Names, d.name.value))
    && d.details.None?
  }

  /** A new session is well formed, whatever draft the chat had before. */
  lemma NewSessionWellFormed(today: string, month: int)
    requires 1 <= month <= 12
    ensures WellFormed(NewSession(today, month))
    ensures Remaining(NewSession(today, month).state) == 5
  {
  }

  /** Accepting a message moves to the next state of the fixed order and
      writes only the field the current state collects; only the details
      state finalises. */
  lemma StepFollowsOrder(s: Session, t: MsgText)
    ensures Step(s, t).Advance? ==>
      Remaining(Step(s, t).next.state) + 1 == Remaining(s.state)
      && Step(s, t).next.state != WaitingDate
      && forall f :: f != Collects(s.state) ==> Agree(s.data, Step(s, t).next.data, f)
    ensures Step(s, t).Finalize? ==>
      s.state == WaitingDetails && Step(s, t).row.details.Some?
      && forall f :: f != DetailsField ==> Agree(s.data, Step(s, t).row, f)
  {
  }

  /** The transition keeps a session well formed, and a well-formed session
      that finalises yields a complete row with the date it started with. */
  lemma StepPreservesWellFormed(s: Session, t: MsgText)
    requires WellFormed(s)
    ensures Step(s, t).Advance? ==> WellFormed(Step(s, t).next)
    ensures Step(s, t).Finalize? ==> Complete(Step(s, t).row)
  {
    if s.state == WaitingAmount {
      assert Step(s, t) == OnAmount(s, t);
    } else if s.state == WaitingCategory {
      assert Step(s, t) == OnCategory(s, t);
    } else if s.state == WaitingName {
      assert Step(s, t) == OnName(s, t);
    }
  }

  /** When the handler rejects, in terms of the raw text alone: an amount
      without a numeric start, a category that is neither an index 1..12 nor
      a listed name, a payer outside the list, a date off the pattern.
      Merchant and details are never rejected. */
  lemma StepRejectsExactly(s: Session, t: MsgText)
    ensures Step(s, t).Reject? <==>
      match s.state
      case WaitingDate => !IsDatePattern(t)
      case WaitingAmount => !NumericStart(TrimStart(ToJsString(t)))
      case WaitingMerchant => false
      case WaitingCategory =>
        !(t.Text? && Includes(Categories, t.s)) && !(ParseInt(t).Some? && 1 <= ParseInt(t).value <= 12)
      case WaitingName => !(t.Text? && Includes(Names, t.s))
      case WaitingDetails => false
  {
    if s.state == WaitingDate {
      assert IsDatePattern(Text(ToJsString(t))) == IsDatePattern(t);
    } else if s.state == WaitingAmount {
      ParseFloatIsNaNIff(t);
    }
  }

  /** The category step in terms of the validator's result. */
  lemma CategoryStep(s: Session, t: MsgText, c: string)
    requires s.state == WaitingCategory && ResolveCategory(t) == Some(c)
    ensures Step(s, t) == Advance(Session(WaitingName, s.data.(category := Some(c))))
  {
    assert Step(s, t) == OnCategory(s, t);
  }

  /** The number shown before a category in the menu and the category's
      own name are accepted alike and give identical sessions ("2" and
      "Shopping" both record Shopping). */
  lemma IndexAndNameAgree(s: Session, i: nat)
    requires s.state == WaitingCategory && i < |Categories|
    ensures Step(s, Text(NatToDecimal(i + 1))) == Step(s, Text(Categories[i]))
    ensures Step(s, Text(Categories[i])) == Advance(Session(WaitingName, s.data.(category := Some(Categories[i]))))
  {
    var c := Categories[i];
    NameSelectsItself(i);
    MenuNumberSelects(i);
    CategoryStep(s, Text(NatToDecimal(i + 1)), c);
    CategoryStep(s, Text(c), c);
  }

  /** "skip" stores the string 'NULL', any other text is stored verbatim,
      and the details state always finalises. A user who types NULL gets
      the same row as one who types skip. */
  lemma DetailsFinalise(s: Session, t: MsgText)
    requires s.state == WaitingDetails
    ensures Step(s, t).Finalize?
    ensures Step(s, t).row.details == Some(if t == Text("skip") then Text("NULL") else t)
    ensures Step(s, Text("skip")) == Step(s, Text("NULL"))
  {
  }

  /** The date state, if it were ever entered: it accepts exactly the
      pattern dddd-dd-dd, stores the text as the date and the two digits in
      the middle as the month (which may be 0 or above 12), and returns to
      the amount state. */
  lemma DateStepIfEntered(s: Session, t: MsgText)
    requires s.state == WaitingDate
    ensures Step(s, t).Advance? <==> IsDatePattern(t)
    ensures IsDatePattern(t) ==>
      var next := Step(s, t).next;
      next.state == WaitingAmount && next.data.transactionDate == t.s
      && next.data.transactionMth == 10 * DigitValue(t.s[5]) + DigitValue(t.s[6])
      && forall f :: f != DateField ==> Agree(s.data, next.data, f)
  {
    assert IsDatePattern(Text(ToJsString(t))) == IsDatePattern(t);
  }

  /** The date state accepts a month of 13 and a day of 45. */
  lemma DateStepHasNoCalendarCheck(s: Session)
    requires s.state == WaitingDate
    ensures Step(s, Text("2024-13-45")).Advance?
    ensures Step(s, Text("2024-13-45")).next.data.transactionMth == 13
  {
    assert IsDatePattern(Text("2024-13-45"));
    assert DigitValue('1') == 1 && DigitValue('3') == 3;
  }

  /** Messages fed one after another to a session, up to the one that
      finalises; `accepted` counts the messages that were not rejected. */
  datatype RunResult = Open(session: Session, accepted: nat) | Finished(row: Draft, accepted: nat)

  function Run(s: Session, msgs: seq<MsgText>, accepted: nat): RunResult
    decreases |msgs|, 0
  {
    if msgs == [] then Open(s, accepted) else Continue(Step(s, msgs[0]), s, msgs[1..], accepted)
  }

  /** The rest of a run once one message has had outcome `o`. */
  function Continue(o: Outcome, s: Session, rest: seq<MsgText>, accepted: nat): RunResult
    decreases |rest|, 1
  {
    match o
    case Reject => Run(s, rest, accepted)
    case Advance(next) => Run(next, rest, accepted + 1)
    case Finalize(row) => Finished(row, accepted + 1)
  }

  /** What one step does to a well-formed session: an accepted message
      leaves it well formed and one step nearer the end, a finalising one
      comes last and yields a complete row; the date is never touched. */
  predicate Progresses(s: Session, o: Outcome) {
    (o.Advance? ==>
      WellFormed(o.next) && Remaining(o.next.state) + 1 == Remaining(s.state)
      && Agree(o.next.data, s.data, DateField))
    && (o.Finalize? ==>
      Remaining(s.state) == 1 && Complete(o.row) && Agree(o.row, s.data, DateField))
  }

  lemma StepProgresses(s: Session, t: MsgText)
    requires WellFormed(s)
    ensures Progresses(s, Step(s, t))
  {
    StepFollowsOrder(s, t);
    StepPreservesWellFormed(s, t);
  }

  /** Along a run from a well-formed session every acceptance brings the
      end one step closer, the date and month are never touched, and the
      run finishes exactly when the remaining count reaches zero. */
  lemma {:induction false} RunCountsAcceptances(s: Session, msgs: seq<MsgText>, accepted: nat)
    requires WellFormed(s)
    ensures var r := Run(s, msgs, accepted);
      r.Finished? ==>
        r.accepted == accepted + Remaining(s.state) && Complete(r.row)
        && Agree(r.row, s.data, DateField)
    ensures var r := Run(s, msgs, accepted);
      r.Open? ==>
        WellFormed(r.session) && r.accepted + Remaining(r.session.state) == accepted + Remaining(s.state)
        && Agree(r.session.data, s.data, DateField)
    decreases |msgs|, 0
  {
    if msgs != [] {
      StepProgresses(s, msgs[0]);
      ContinueCounts(Step(s, msgs[0]), s, msgs[1..], accepted);
    }
  }

  /** The same, for the rest of a run after an outcome that progresses. */
  lemma {:induction false} ContinueCounts(o: Outcome, s: Session, rest: seq<MsgText>, accepted: nat)
    requires WellFormed(s) && Progresses(s, o)
    ensures var r := Continue(o, s, rest, accepted);
      r.Finished? ==>
        r.accepted == accepted + Remaining(s.state) && Complete(r.row)
        && Agree(r.row, s.data, DateField)
    ensures var r := Continue(o, s, rest, accepted);
      r.Open? ==>
        WellFormed(r.session) && r.accepted + Remaining(r.session.state) == accepted + Remaining(s.state)
        && Agree(r.session.data, s.data, DateField)
    decreases |rest|, 1
  {
    match o
    case Reject => RunCountsAcceptances(s, rest, accepted);
    case Advance(next) => RunCountsAcceptances(next, rest, accepted + 1);
    case Finalize(_) =>
  }

  /** After `/add`, an entry is finished by exactly five accepted messages,
      and the row keeps the date and month captured by `/add`. */
  lemma FinishAfterExactlyFive(today: string, month: int, msgs: seq<MsgText>)
    requires 1 <= month <= 12
    ensures var r := Run(NewSession(today, month), msgs, 0);
      r.Finished? ==>
        r.accepted == 5 && Complete(r.row)
        && r.row.transactionDate == today && r.row.transactionMth == month
  {
    NewSessionWellFormed(today, month);
    RunCountsAcceptances(NewSession(today, month), msgs, 0);
  }

  /** Until then the session sits in the state of the fixed order that
      matches the number of messages accepted so far. */
  lemma OpenRunFollowsOrder(today: string, month: int, msgs: seq<MsgText>)
    requires 1 <= month <= 12
    ensures var r := Run(NewSession(today, month), msgs, 0);
      r.Open? ==> r.accepted < 5 && r.session.state == FlowOrder[r.accepted] && WellFormed(r.session)
  {
    NewSessionWellFormed(today, month);
    RunCountsAcceptances(NewSession(today, month), msgs, 0);
  }

  /** The amount step in terms of the validator's result. */
  lemma AmountStep(s: Session, t: MsgText)
    requires s.state == WaitingAmount && ParseAmount(t).Some?
    ensures Step(s, t) == Advance(Session(WaitingMerchant, s.data.(transactionAmount := ParseAmount(t))))
  {
    assert Step(s, t) == OnAmount(s, t);
  }

  /** The payer step for a listed payer. */
  lemma PayerStep(s: Session, t: MsgText)
    requires s.state == WaitingName && IsPayer(t)
    ensures Step(s, t) == Advance(Session(WaitingDetails, s.data.(name := Some(t.s))))
  {
    assert Step(s, t) == OnName(s, t);
  }

  /** The whole flow after `/add`: five messages the validators accept (the
      merchant and the details always are) finish the entry with exactly
      the values they give, the date and month being those of `/add`. */
  lemma EntryOfFiveMessages(today: string, month: int, msgs: seq<MsgText>)
    requires |msgs| == 5 && ParseAmount(msgs[0]).Some? && ResolveCategory(msgs[2]).Some? && IsPayer(msgs[3])
    ensures Run(NewSession(today, month), msgs, 0)
      == Finished(Draft(today, month, ParseAmount(msgs[0]), Some(msgs[1]), ResolveCategory(msgs[2]), Some(msgs[3].s),
                        Some(DetailsValue(msgs[4]))), 5)
  {
    RunFromAmount(NewSession(today, month), msgs, 0);
  }

  /** The five messages of an entry, from the amount state. */
  lemma RunFromAmount(s: Session, msgs: seq<MsgText>, accepted: nat)
    requires s.state == WaitingAmount && |msgs| == 5
    requires ParseAmount(msgs[0]).Some? && ResolveCategory(msgs[2]).Some? && IsPayer(msgs[3])
    ensures Run(s, msgs, accepted)
      == Finished(s.data.(transactionAmount := ParseAmount(msgs[0]), merchant := Some(msgs[1]),
                          category := ResolveCategory(msgs[2]), name := Some(msgs[3].s),
                          details := Some(DetailsValue(msgs[4]))), accepted + 5)
  {
    var next := Session(WaitingMerchant, s.data.(transactionAmount := ParseAmount(msgs[0])));
    AmountStep(s, msgs[0]);
    RunAdvances(s, next, msgs, accepted);
    RunFromMerchant(next, msgs[1..], accepted + 1);
  }

  /** The last four messages of an entry. */
  lemma RunFromMerchant(s: Session, msgs: seq<MsgText>, accepted: nat)
    requires s.state == WaitingMerchant && |msgs| == 4 && ResolveCategory(msgs[1]).Some? && IsPayer(msgs[2])
    ensures Run(s, msgs, accepted)
      == Finished(s.data.(merchant := Some(msgs[0]), category := ResolveCategory(msgs[1]), name := Some(msgs[2].s),
                          details := Some(DetailsValue(msgs[3]))), accepted + 4)
  {
    var next := Session(WaitingCategory, s.data.(merchant := Some(msgs[0])));
    assert Step(s, msgs[0]) == Advance(next);
    RunAdvances(s, next, msgs, accepted);
    RunFromCategory(next, msgs[1..], accepted + 1);
  }

  /** The last three messages of an entry. */
  lemma RunFromCategory(s: Session, msgs: seq<MsgText>, accepted: nat)
    requires s.state == WaitingCategory && |msgs| == 3 && ResolveCategory(msgs[0]).Some? && IsPayer(msgs[1])
    ensures Run(s, msgs, accepted)
      == Finished(s.data.(category := ResolveCategory(msgs[0]), name := Some(msgs[1].s),
                          details := Some(DetailsValue(msgs[2]))), accepted + 3)
  {
    var c := ResolveCategory(msgs[0]).value;
    var next := Session(WaitingName, s.data.(category := Some(c)));
    CategoryStep(s, msgs[0], c);
    RunAdvances(s, next, msgs, accepted);
    RunFromPayer(next, msgs[1..], accepted + 1);
  }

  /** The last two messages of an entry. */
  lemma RunFromPayer(s: Session, msgs: seq<MsgText>, accepted: nat)
    requires s.state == WaitingName && |msgs| == 2 && IsPayer(msgs[0])
    ensures Run(s, msgs, accepted)
      == Finished(s.data.(name := Some(msgs[0].s), details := Some(DetailsValue(msgs[1]))), accepted + 2)
  {
    var next := Session(WaitingDetails, s.data.(name := Some(msgs[0].s)));
    PayerStep(s, msgs[0]);
    RunAdvances(s, next, msgs, accepted);
    RunFinishes(next, msgs[1..], accepted + 1);
  }

  /** One accepted message moves a run on to the next session. */
  lemma RunAdvances(s: Session, next: Session, msgs: seq<MsgText>, accepted: nat)
    requires msgs != [] && Step(s, msgs[0]) == Advance(next)
    ensures Run(s, msgs, accepted) == Run(next, msgs[1..], accepted + 1)
  {
  }

  /** The details message ends a run with the draft it completes. */
  lemma RunFinishes(s: Session, msgs: seq<MsgText>, accepted: nat)
    requires s.state == WaitingDetails && |msgs| == 1
    ensures Run(s, msgs, accepted) == Finished(s.data.(details := Some(DetailsValue(msgs[0]))), accepted + 1)
  {
    assert Step(s, msgs[0]) == Finalize(s.data.(details := Some(DetailsValue(msgs[0]))));
  }
}
