/** The session store `userStates` and the two handlers that change it: the
    `/add` handler and the `message` handler. Telegram replies are returned
    as `Reply` tags; the Supabase insert is a parameter saying how it ended. */
module SessionStore {
  import opened JsStrings
  import opened JsNumbers
  import opened Validators
  import opened Engine

  /** `msg.chat.id`. */
  type ChatId = int

  /** How the insert of the finished row into `expenses_raw` ended. */
  datatype InsertResult = Inserted | InsertFailed

  /** What the bot sends back: nothing, the "Use /add" instruction, the
      prompt of a state, the retry hint of a state, the confirmation
      summarising a recorded row, or the generic failure message. */
  datatype Reply = NoReply | UseAdd | Prompt(state: State) | Hint(state: State) | Recorded(row: Draft) | Failed

  /** The effect of one message: the new store, the reply, and the row
      handed to the insert, if one was. */
  datatype Effect = Effect(sessions: map<ChatId, Session>, reply: Reply, inserted: Option<Draft>)

  /** Every session in the store is one the `/add` flow can produce. */
  predicate AllWellFormed(m: map<ChatId, Session>) {
    forall c :: c in m ==> WellFormed(m[c])
  }

  /** The `/add` handler on the store: a new session replaces whatever the
      chat had; no other chat is touched. */
  function AddSession(m: map<ChatId, Session>, chat: ChatId, today: string, month: int): (r: map<ChatId, Session>)
    ensures chat in r && r[chat].state == WaitingAmount
    ensures r[chat].data == Draft(today, month, None, None, None, None, None)
    ensures forall c :: c != chat ==> (c in r <==> c in m) && (c in m ==> r[c] == m[c])
  {
    m[chat := NewSession(today, month)]
  }

  /** The `message` handler on the store. Only the entry of `chat` may
      change; a finished entry is removed whatever the insert reported. */
  function Handle(m: map<ChatId, Session>, chat: ChatId, t: MsgText, insert: InsertResult): (e: Effect)
    ensures forall c :: c != chat ==> (c in e.sessions <==> c in m) && (c in m ==> e.sessions[c] == m[c])
    ensures e.inserted.Some? <==> chat !in e.sessions && chat in m
    ensures e.reply.NoReply? || e.reply.UseAdd? || e.reply.Hint? ==> e.sessions == m
    ensures e.reply.Prompt? ==> chat in e.sessions && e.sessions[chat].state == e.reply.state
  {
    if IsCommand(t) then Effect(m, NoReply, None)
    else if chat !in m then Effect(m, UseAdd, None)
    else
      match Step(m[chat], t)
      case Reject => Effect(m, Hint(m[chat].state), None)
      case Advance(next) => Effect(m[chat := next], Prompt(next.state), None)
      case Finalize(row) =>
        Effect(m - {chat}, if insert == Inserted then Recorded(row) else Failed, Some(row))
  }

  /** The message handler on a chat with a session, by the engine's outcome. */
  lemma HandleFollowsStep(m: map<ChatId, Session>, chat: ChatId, t: MsgText, insert: InsertResult)
    requires chat in m && !IsCommand(t)
    ensures Step(m[chat], t).Reject? ==> Handle(m, chat, t, insert) == Effect(m, Hint(m[chat].state), None)
    ensures Step(m[chat], t).Advance? ==>
      Handle(m, chat, t, insert) == Effect(m[chat := Step(m[chat], t).next], Prompt(Step(m[chat], t).next.state), None)
    ensures Step(m[chat], t).Finalize? ==>
      var row := Step(m[chat], t).row;
      Handle(m, chat, t, insert) == Effect(m - {chat}, if insert == Inserted then Recorded(row) else Failed, Some(row))
  {
  }

  /** A text starting with '/' changes nothing and gets no reply here. */
  lemma CommandChangesNothing(m: map<ChatId, Session>, chat: ChatId, t: MsgText, insert: InsertResult)
    requires t.Text? && |t.s| > 0 && t.s[0] == '/'
    ensures Handle(m, chat, t, insert) == Effect(m, NoReply, None)
  {
    assert t.s[..1] == [t.s[0]];
  }

  /** Plain text, or no text at all, from a chat without a session creates
      none and only gets the "Use /add" reply. */
  lemma IdleChatIsToldToAdd(m: map<ChatId, Session>, chat: ChatId, t: MsgText, insert: InsertResult)
    requires chat !in m && !(t.Text? && |t.s| > 0 && t.s[0] == '/')
    ensures Handle(m, chat, t, insert) == Effect(m, UseAdd, None)
  {
  }

  /** `/add` discards whatever the chat had, a draft in progress or no
      session at all: stores that differ only in that chat's entry give the
      same store after `/add`. */
  lemma AddDiscardsEarlierDraft(m1: map<ChatId, Session>, m2: map<ChatId, Session>, chat: ChatId,
                                today: string, month: int)
    requires m1 - {chat} == m2 - {chat}
    ensures AddSession(m1, chat, today, month) == AddSession(m2, chat, today, month)
  {
    var a1 := AddSession(m1, chat, today, month);
    var a2 := AddSession(m2, chat, today, month);
    forall c | c != chat
      ensures (c in a1 <==> c in a2) && (c in a1 ==> a1[c] == a2[c])
    {
      assert c in m1 <==> c in m1 - {chat};
      assert c in m2 <==> c in m2 - {chat};
      if c in m1 {
        assert m1[c] == (m1 - {chat})[c];
        assert m2[c] == (m2 - {chat})[c];
      }
    }
  }

  /** A rejected message leaves the whole store, and so the chat's state tag
      and draft, exactly as they were, and re-sends the state's hint. */
  lemma RejectLeavesStoreUnchanged(m: map<ChatId, Session>, chat: ChatId, t: MsgText, insert: InsertResult)
    requires chat in m && !IsCommand(t) && Step(m[chat], t).Reject?
    ensures Handle(m, chat, t, insert) == Effect(m, Hint(m[chat].state), None)
  {
  }

  /** The details message hands the row to the insert and removes the
      session whether the insert succeeds or fails; the next plain text
      from that chat is then told to use /add. */
  lemma FinishingRemovesSession(m: map<ChatId, Session>, chat: ChatId, t: MsgText, insert: InsertResult,
                                later: MsgText, insert2: InsertResult)
    requires chat in m && m[chat].state == WaitingDetails && !IsCommand(t) && !IsCommand(later)
    ensures var e := Handle(m, chat, t, insert);
      e.sessions == m - {chat}
      && e.inserted == Some(m[chat].data.(details := Some(DetailsValue(t))))
      && e.reply == (if insert == Inserted then Recorded(e.inserted.value) else Failed)
    ensures var e := Handle(m, chat, t, insert);
      Handle(e.sessions, chat, later, insert2) == Effect(e.sessions, UseAdd, None)
  {
    DetailsFinalise(m[chat], t);
  }

  /** Both handlers keep every session in the store well formed; in
      particular no session is ever in the date state. */
  lemma HandlersPreserveWellFormed(m: map<ChatId, Session>, chat: ChatId, t: MsgText, insert: InsertResult,
                                   today: string, month: int)
    requires AllWellFormed(m)
    ensures AllWellFormed(Handle(m, chat, t, insert).sessions)
    ensures 1 <= month <= 12 ==> AllWellFormed(AddSession(m, chat, today, month))
  {
    if chat in m && !IsCommand(t) {
      StepPreservesWellFormed(m[chat], t);
    }
    if 1 <= month <= 12 {
      NewSessionWellFormed(today, month);
    }
  }

  /** One inbound event: an `/add` command (with the clock readings it
      takes) or a message reaching the `message` handler. */
  datatype Event =
    | AddCommand(chat: ChatId, today: string, month: int)
    | Message(chat: ChatId, text: MsgText, insert: InsertResult)

  /** The store after a sequence of events, each handled to completion. */
  function Replay(m: map<ChatId, Session>, events: seq<Event>): map<ChatId, Session>
    decreases |events|
  {
    if events == [] then m
    else
      var m' := match events[0]
        case AddCommand(chat, today, month) => AddSession(m, chat, today, month)
        case Message(chat, text, insert) => Handle(m, chat, text, insert).sessions;
      Replay(m', events[1..])
  }

  /** From an empty store, whatever the events (with months a clock can
      give), every session is well formed: the date state is never reached
      and the draft holds exactly the fields of the states passed. */
  lemma {:induction false} ReachableStoresAreWellFormed(m: map<ChatId, Session>, events: seq<Event>)
    requires AllWellFormed(m)
    requires forall i :: 0 <= i < |events| && events[i].AddCommand? ==> 1 <= events[i].month <= 12
    ensures AllWellFormed(Replay(m, events))
    ensures forall c :: c in Replay(m, events) ==> Replay(m, events)[c].state != WaitingDate
    decreases |events|
  {
    if events != [] {
      var e := events[0];
      match e
      case AddCommand(chat, today, month) =>
        HandlersPreserveWellFormed(m, chat, NoText, Inserted, today, month);
        ReachableStoresAreWellFormed(AddSession(m, chat, today, month), events[1..]);
      case Message(chat, text, insert) =>
        HandlersPreserveWellFormed(m, chat, text, insert, "", 1);
        ReachableStoresAreWellFormed(Handle(m, chat, text, insert).sessions, events[1..]);
    }
  }

  /** The texts of a sequence of message events. */
  function TextsOf(events: seq<Event>): (texts: seq<MsgText>)
    requires forall i :: 0 <= i < |events| ==> events[i].Message?
    ensures |texts| == |events|
    ensures forall i :: 0 <= i < |texts| ==> texts[i] == events[i].text
  {
    if events == [] then [] else [events[0].text] + TextsOf(events[1..])
  }

  /** Plain messages one chat sends while it holds a session. */
  predicate PlainMessagesOf(events: seq<Event>, chat: ChatId) {
    forall i :: 0 <= i < |events| ==> events[i].Message? && events[i].chat == chat && !IsCommand(events[i].text)
  }

  /** The handler on a chat's own plain messages does what the engine's run
      over their texts does: while the run is open the chat holds the run's
      session, and once it finishes the chat has no session; no other chat
      changes. So the counts proved about `Run` hold for the store. */
  lemma {:induction false} ReplayFollowsRun(m: map<ChatId, Session>, chat: ChatId, events: seq<Event>, accepted: nat)
    requires chat in m && PlainMessagesOf(events, chat)
    ensures var r := Run(m[chat], TextsOf(events), accepted);
      (r.Open? ==> Replay(m, events) == m[chat := r.session])
      && (r.Finished? ==> Replay(m, events) == m - {chat})
    decreases |events|
  {
    if events == [] {
      assert m[chat := m[chat]] == m;
    } else {
      var e := events[0];
      var rest := events[1..];
      assert PlainMessagesOf(rest, chat) by {
        forall i | 0 <= i < |rest| ensures rest[i] == events[i + 1] { }
      }
      assert TextsOf(events)[1..] == TextsOf(rest);
      HandleFollowsStep(m, chat, e.text, e.insert);
      match Step(m[chat], e.text)
      case Reject =>
        ReplayFollowsRun(m, chat, rest, accepted);
      case Advance(next) =>
        ReplayFollowsRun(m[chat := next], chat, rest, accepted + 1);
        var r := Run(next, TextsOf(rest), accepted + 1);
        assert r.Open? ==> m[chat := next][chat := r.session] == m[chat := r.session];
        assert m[chat := next] - {chat} == m - {chat};
      case Finalize(row) =>
        ReplayIgnoresIdleChat(m - {chat}, chat, rest);
    }
  }

  /** After `/add`, a chat's plain messages remove its session only once
      exactly five of them were accepted, with a complete row; until then
      the session is in the state of the fixed order that matches the
      number accepted. */
  lemma StoreEntryFollowsOrder(m: map<ChatId, Session>, chat: ChatId, today: string, month: int, events: seq<Event>)
    requires 1 <= month <= 12 && PlainMessagesOf(events, chat)
    ensures var r := Run(NewSession(today, month), TextsOf(events), 0);
      var after := Replay(AddSession(m, chat, today, month), events);
      (chat !in after ==> r.Finished? && r.accepted == 5 && Complete(r.row))
      && (chat in after ==> r.Open? && r.accepted < 5 && after[chat].state == FlowOrder[r.accepted])
  {
    var start := AddSession(m, chat, today, month);
    assert start[chat] == NewSession(today, month);
    ReplayFollowsRun(start, chat, events, 0);
    FinishAfterExactlyFive(today, month, TextsOf(events));
    OpenRunFollowsOrder(today, month, TextsOf(events));
  }

  /** Plain messages from a chat without a session leave the store as it is. */
  lemma {:induction false} ReplayIgnoresIdleChat(m: map<ChatId, Session>, chat: ChatId, events: seq<Event>)
    requires chat !in m && PlainMessagesOf(events, chat)
    ensures Replay(m, events) == m
    decreases |events|
  {
    if events != [] {
      var rest := events[1..];
      assert PlainMessagesOf(rest, chat) by {
        forall i | 0 <= i < |rest| ensures rest[i] == events[i + 1] { }
      }
      var t := events[0].text;
      assert !(t.Text? && |t.s| > 0 && t.s[0] == '/') by {
        if t.Text? && |t.s| > 0 {
          assert t.s[..1] == [t.s[0]];
        }
      }
      IdleChatIsToldToAdd(m, chat, t, events[0].insert);
      ReplayIgnoresIdleChat(m, chat, rest);
    }
  }

  /** The bot's `userStates` object with the two handlers that update it. */
  class Store {
    var userStates: map<ChatId, Session>

    constructor ()
      ensures userStates == map[]
    {
      userStates := map[];
    }

    /** The `/add` handler. `today` is the UTC date `new Date()` gives as
        YYYY-MM-DD and `month` the local month `getMonth() + 1`. */
    method Add(chat: ChatId, today: string, month: int) returns (reply: Reply)
      requires 1 <= month <= 12
      modifies this
      ensures userStates == AddSession(old(userStates), chat, today, month)
      ensures reply == Prompt(WaitingAmount)
      ensures AllWellFormed(old(userStates)) ==> AllWellFormed(userStates)
    {
      ghost var before := userStates;
      userStates := userStates[chat := Session(WaitingAmount, Draft(today, month, None, None, None, None, None))];
      reply := Prompt(WaitingAmount);
      if AllWellFormed(before) {
        HandlersPreserveWellFormed(before, chat, NoText, Inserted, today, month);
      }
    }

    /** The `message` handler: each message is handled to completion before
        the next; `insert` is how the insert of a finished row ends. */
    method OnMessage(chat: ChatId, text: MsgText, insert: InsertResult) returns (reply: Reply, inserted: Option<Draft>)
      modifies this
      ensures Effect(userStates, reply, inserted) == Handle(old(userStates), chat, text, insert)
      ensures AllWellFormed(old(userStates)) ==> AllWellFormed(userStates)
    {
      ghost var before := userStates;
      if AllWellFormed(before) {
        HandlersPreserveWellFormed(before, chat, text, insert, "", 1);
      }
      inserted := None;
      if IsCommand(text) {
        reply := NoReply;
        return;
      }
      if chat !in userStates {
        reply := UseAdd;
        return;
      }
      var state := userStates[chat].state;
      var data := userStates[chat].data;
      HandleFollowsStep(before, chat, text, insert);
      match state {
        case WaitingDate =>
          var s := ToJsString(text);
          if !IsDatePattern(Text(s)) {
            reply := Hint(WaitingDate);
            return;
          }
          data := data.(transactionDate := s, transactionMth := DateMonth(s));
          userStates := userStates[chat := Session(WaitingAmount, data)];
          reply := Prompt(WaitingAmount);
        case WaitingAmount =>
          var amount := ParseAmount(text);
          if amount.None? {
            reply := Hint(WaitingAmount);
            return;
          }
          data := data.(transactionAmount := amount);
          userStates := userStates[chat := Session(WaitingMerchant, data)];
          reply := Prompt(WaitingMerchant);
        case WaitingMerchant =>
          data := data.(merchant := Some(text));
          userStates := userStates[chat := Session(WaitingCategory, data)];
          reply := Prompt(WaitingCategory);
        case WaitingCategory =>
          var category := ResolveCategory(text);
          if category.None? {
            reply := Hint(WaitingCategory);
            return;
          }
          data := data.(category := category);
          userStates := userStates[chat := Session(WaitingName, data)];
          reply := Prompt(WaitingName);
        case WaitingName =>
          if !IsPayer(text) {
            reply := Hint(WaitingName);
            return;
          }
          data := data.(name := Some(text.s));
          userStates := userStates[chat := Session(WaitingDetails, data)];
          reply := Prompt(WaitingDetails);
        case WaitingDetails =>
          data := data.(details := Some(DetailsValue(text)));
          inserted := Some(data);
          if insert == InsertFailed {
            reply := Failed;
          } else {
            reply := Recorded(data);
          }
          userStates := userStates - {chat};
      }
    }
  }
}
