# Expense-entry state machine of the Telegram expense bot

This project models the heart of `index.js`: the per-chat conversation that
records one expense. `/add` opens a session in the `userStates` store. Each
later plain-text message from that chat is checked by the validator of the
session's state. A rejected message leaves the session as it was and the
bot re-sends the state's hint. An accepted message writes one field of the
draft and moves the session to the next state. The details message
finalises the row, hands it to the database insert and removes the session.

Layout, one module per file:

- `js_strings.dfy` (`JsStrings`): what the handlers do to a message text. A
  text may be missing (`msg.text` is `undefined` for a photo), which is
  `NoText`. The file also holds `startsWith`, `includes` as a scan, the
  leading white-space trim, and `split`/`join` on one character.
- `js_numbers.dfy` (`JsNumbers`): `parseInt` with no radix and `parseFloat`
  as ECMAScript defines them. Both skip leading white space and then read
  the longest numeric prefix. `parseInt` switches to base 16 after
  `0x`/`0X`. `parseFloat` also reads `Infinity`. NaN is `None`. The
  StrDecimalLiteral grammar (section 7.1.4.1 of ECMA-262) is written out as
  predicates, and `parseFloat` is proved to read its longest prefix.
- `validators.dfy` (`Validators`): `VALID_CATEGORIES` and `VALID_NAMES`,
  plus the five per-state checks: the date pattern and month, the amount,
  the category by 1-based index or by name, the payer, and details with
  `skip`.
- `category_menu.dfy` (`CategoryMenu`): the numbered category list sent
  with the category prompt, and its agreement with the index the category
  check resolves.
- `engine.dfy` (`Engine`): the state tags, the draft, the per-state
  transition `Step`, the invariant `WellFormed` it preserves, and runs of
  several messages.
- `session_store.dfy` (`SessionStore`): the store as a map from chat id to
  session. `AddSession` and `Handle` are its two handlers as functions.
  The class `Store` holds `userStates` and updates it in place with `Add`
  and `OnMessage`; each method is proved equal to its function.

Facts about the code that the model keeps:

- Nothing checks that an amount is positive or finite: `-5`, `Infinity`
  and the `12` read from `12abc` are all recorded.
- The date state would store any two middle digits of a `dddd-dd-dd` text
  as the month, 0 and 13 to 99 included.
- The draft fields are the code's field names in camel case (`transaction_mth` is `transactionMth`), and `name` is the payer.

Behaviours the model makes explicit:

- A category index is read by `parseInt`, so `"0x2"` and `"2. Shopping"`
  both select Shopping, just as `"2"` does.
- A payer must match `Sam`, `Nat` or `Shared` exactly, so `sam` is rejected.
- Typing `NULL` as the details gives the same row as typing `skip`.
- No handler ever puts a session in the date state.

## Model

| member | source | states |
|---|---|---|
| JsStrings.ToJsString | index.js:35 | A present text is itself; a missing one is the string "undefined" that the regex test and the number parsers see. |
| JsStrings.IsCommand | index.js:37 | No contract of its own: `text?.startsWith('/')`, false for a missing text. `SessionStore.CommandChangesNothing` states what the handler does with a command. |
| JsStrings.Includes | index.js:79 | No contract of its own: `includes` as a scan of the list. `IncludesIsMembership` and `IncludesEntry` state it. |
| JsStrings.IncludesIsMembership | index.js:79 | `Array.prototype.includes` on a list of strings holds exactly when the text is an element of the list. |
| JsStrings.IncludesEntry | index.js:79 | Every element of a list is found by `includes`. |
| JsStrings.TrimStart | index.js:60 | The trimmed text is a suffix of the input and does not start with white space. |
| JsStrings.TrimStartRemovesOnlyWhiteSpace | index.js:60 | Everything the trim removes is white space, so the trim keeps the longest suffix that starts with a non-blank. |
| JsStrings.Split | index.js:54 | `split` on one character always yields at least one piece. |
| JsStrings.SplitPiece | index.js:54 | A piece without the separator splits to itself, and a piece, the separator and a rest split into that piece followed by the pieces of the rest. |
| JsStrings.Join | index.js:73 | No contract of its own: `join` with one separator character. `SplitJoin` states that `Split` undoes it for pieces without the separator. |
| JsStrings.SplitJoin | index.js:73 | Joining pieces that do not contain the separator and splitting again gives back the pieces. |
| JsNumbers.DigitValue | index.js:78 | A decimal digit is worth less than 10. A hexadecimal digit is worth less than 16, and its value is its position in `0123456789abcdef` or in `0123456789ABCDEF`, so `a`/`A` to `f`/`F` are worth 10 to 15. |
| JsNumbers.DigitPrefix | index.js:78 | The digit prefix is a prefix made only of digits, and the character after it is not a digit. |
| JsNumbers.DigitPrefixOfDigits | index.js:78 | Digits followed by a non-digit have exactly those digits as their digit prefix. |
| JsNumbers.DecimalDigit | index.js:73 | The character for a digit value is a decimal digit of that value. |
| JsNumbers.NatToDecimal | index.js:73 | `${n}` is a non-empty run of decimal digits with no leading zero for n > 0, and its value is n. |
| JsNumbers.ParseInt | index.js:78 | No contract of its own: `parseInt` with no radix. `ParseIntOfDecimal`, `ParseIntOfHex`, `ParseIntOfUnsigned`, `ParseIntOfWord` and `Validators.TwoDigitMonth` state what it reads. |
| JsNumbers.ParseIntOfDecimal | index.js:78 | `parseInt` reads back the decimal rendering of a positive number, whatever non-digit text follows it. |
| JsNumbers.ParseIntOfHex | index.js:78 | `parseInt` reads `0x` followed by hexadecimal digits as their base-16 value, whatever non-digit follows. |
| JsNumbers.ParseIntOfUnsigned | index.js:78 | A text that starts with neither white space nor a sign is read by `parseInt` from its first character. |
| JsNumbers.ParseIntOfWord | index.js:78 | A text starting with a capital letter is NaN for `parseInt`. |
| JsNumbers.ExponentLength | index.js:60 | An exponent, when one is read, is at least two characters long, starts with `e` or `E` and lies within the text. |
| JsNumbers.DecimalLiteralLength | index.js:60 | A decimal literal that is found has a positive length within the text. |
| JsNumbers.UnsignedLiteralLength | index.js:60 | An unsigned literal that is found has a positive length within the text. |
| JsNumbers.MantissaLength | index.js:60 | A mantissa that is found has a positive length within the text. |
| JsNumbers.ExponentLengthReadsExponent | index.js:60 | What `ExponentLength` reads, when it reads anything, is an ExponentPart of the ECMAScript grammar. |
| JsNumbers.ExponentWithin | index.js:60 | Every prefix that is an ExponentPart is no longer than what `ExponentLength` reads, so it reads the longest one. |
| JsNumbers.MantissaLengthReadsMantissa | index.js:60 | What `MantissaLength` reads is a mantissa of the grammar: digits, digits and a point, digits around a point, or a point and digits. |
| JsNumbers.MantissaWithin | index.js:60 | Every prefix that is a mantissa is no longer than what `MantissaLength` reads, and then it does read one. |
| JsNumbers.UnsignedLiteralLengthReadsLiteral | index.js:60 | What `UnsignedLiteralLength` reads is a StrUnsignedDecimalLiteral: `Infinity`, or a mantissa with an optional ExponentPart. |
| JsNumbers.UnsignedLiteralWithin | index.js:60 | Every prefix that is a StrUnsignedDecimalLiteral is no longer than what `UnsignedLiteralLength` reads, and then it does read one. |
| JsNumbers.DecimalLiteralLengthReadsLiteral | index.js:60 | What `DecimalLiteralLength` reads is a StrDecimalLiteral, an unsigned literal with an optional sign. |
| JsNumbers.DecimalLiteralWithin | index.js:60 | Every prefix that is a StrDecimalLiteral is no longer than what `DecimalLiteralLength` reads, and then it does read one. So it reads the longest literal prefix, and it reads nothing only when no non-empty prefix is a literal. |
| JsNumbers.DecimalLiteralOfDigits | index.js:60 | Digits followed by a character that cannot continue a number form a literal of exactly those digits. |
| JsNumbers.DecimalLiteralOfFraction | index.js:60 | Digits, a point and more digits form a literal that spans the whole text. |
| JsNumbers.MantissaOfFraction | index.js:60 | The mantissa of digits, a point and more digits is the whole text. |
| JsNumbers.MantissaFoundIff | index.js:60-61 | A mantissa is found exactly when the text starts with a digit, or with a point followed by a digit. |
| JsNumbers.DecimalLiteralFoundIff | index.js:60-61 | A decimal literal is found exactly when the text has a numeric start after an optional sign. |
| JsNumbers.ParseFloat | index.js:60 | No contract of its own: the literal read from the trimmed text, or NaN. `ParseFloatIsNaNIff` and `ParseFloatReadsLongestLiteral` state it. |
| JsNumbers.ParseFloatIsNaNIff | index.js:60-61 | `parseFloat` is NaN exactly when the trimmed text has no numeric start; otherwise the literal it reads is a non-empty prefix of the trimmed text. |
| JsNumbers.ParseFloatReadsLongestLiteral | index.js:60-61 | The literal `parseFloat` reads is a StrDecimalLiteral that starts the trimmed text. No longer prefix of the trimmed text is one. When it is NaN, no non-empty prefix is one. |
| Validators.IsDatePattern | index.js:49 | No contract of its own: the regex `^\d{4}-\d{2}-\d{2}$` on the text, with a missing text tested as "undefined". `DatePatternSplit`, `Engine.DateStepIfEntered` and `Engine.DateStepHasNoCalendarCheck` state what follows from it. |
| Validators.DatePatternSplit | index.js:54 | A text of the form dddd-dd-dd splits on `-` into year, month and day. |
| Validators.DateMonth | index.js:54 | The month the date state stores is the two middle digits read as a number, between 0 and 99. |
| Validators.TwoDigitMonth | index.js:54 | `parseInt` of two decimal digits is their two-digit value. |
| Validators.ResolveCategory | index.js:78-79 | An index 1..12 read by `parseInt` selects that entry. Otherwise only a listed name is accepted. Every accepted category is listed. A rejection means the text is neither a listed name nor an index 1..12. |
| Validators.NameSelectsItself | index.js:78-79 | A category's own name is not a number for `parseInt`, and it selects that category. |
| Validators.NumberSelects | index.js:78-79 | A text that starts with a category's number and continues with a non-digit selects that category. |
| Validators.MenuNumberSelects | index.js:73-79 | The number a category has in the menu selects that category. |
| Validators.ParseAmount | index.js:60-61 | No contract of its own: `parseFloat` and the NaN test. `JsNumbers.ParseFloatIsNaNIff`, `JsNumbers.ParseFloatReadsLongestLiteral` and the amount lemmas below state it. |
| Validators.AmountOfDigits | index.js:60-61 | Digits followed by a character that cannot continue a number are accepted as an amount of exactly those digits, so trailing text is ignored. |
| Validators.AmountOfDecimal | index.js:60-61 | Digits, a point and more digits are accepted as that amount. |
| Validators.WordIsNotAnAmount | index.js:60-61 | A text that starts with a lower-case letter is rejected as an amount. |
| Validators.NegativeAmountAccepted | index.js:60-61 | A minus sign followed by digits is accepted as an amount. |
| Validators.InfiniteAmountAccepted | index.js:60-61 | A text starting with `Infinity` is accepted as an amount. |
| Validators.IsPayer | index.js:89 | No contract of its own: `VALID_NAMES.includes(text)`. `JsStrings.IncludesIsMembership` and `PayerIsCaseSensitive` state it. |
| Validators.PayerIsCaseSensitive | index.js:89 | `Sam` is a payer and `sam` is not. |
| Validators.DetailsValue | index.js:99 | `skip` becomes `NULL`; any other text, or no text, is kept as it is. |
| CategoryMenu.MenuLine | index.js:73 | No contract of its own: one numbered line. `MenuLineSelectsItsCategory` states that the line typed back selects its category. |
| CategoryMenu.MenuLines | index.js:73 | The menu has one line per category, and line i is the number i+1, a point, a space and the category's name. |
| CategoryMenu.Menu | index.js:73 | No contract of its own: the lines joined with line breaks. `MenuSplitsIntoLines` states it. |
| CategoryMenu.CategoriesAreSingleLine | index.js:8-11 | No category name contains a line break. |
| CategoryMenu.MenuSplitsIntoLines | index.js:73 | The menu text splits at line breaks back into its lines, one per category in declared order. |
| CategoryMenu.MenuLineSelectsItsCategory | index.js:73-79 | A whole menu line, typed back as shown, selects its own category. |
| Engine.NewSession | index.js:23-28 | `/add` creates a session waiting for the amount whose draft holds only the date and month it was given. |
| Engine.Remaining | index.js:47-117 | Each state of the flow sits at its place in the fixed order, with between 5 and 1 accepted messages still to go. |
| Engine.Step | index.js:47-118 | No contract of its own: the per-state `switch`. `StepRejectsExactly`, `StepFollowsOrder`, `StepPreservesWellFormed` and `StepProgresses` state it. |
| Engine.OnDate | index.js:48-57 | No contract of its own. `DateStepIfEntered` and `DateStepHasNoCalendarCheck` state it. |
| Engine.OnAmount | index.js:59-68 | No contract of its own. `AmountStep` and `StepRejectsExactly` state it. |
| Engine.OnCategory | index.js:77-86 | No contract of its own. `CategoryStep`, `IndexAndNameAgree` and `StepRejectsExactly` state it. |
| Engine.OnName | index.js:88-96 | No contract of its own. `PayerStep` and `StepRejectsExactly` state it. |
| Engine.NewSessionWellFormed | index.js:21-29 | A new session is well formed and needs five more accepted messages. |
| Engine.StepFollowsOrder | index.js:47-117 | An accepted message moves to the next state of the order and writes only the field of the current state. Only the details state finalises, and it writes only the details. |
| Engine.StepPreservesWellFormed | index.js:47-117 | A step keeps a session well formed; a finalising step yields a complete row with a listed category and payer. |
| Engine.StepRejectsExactly | index.js:49-92 | The message is rejected exactly when the state's check fails on the raw text. Merchant and details are never rejected. |
| Engine.CategoryStep | index.js:77-86 | An accepted category is written into the draft and the session moves to the payer state. |
| Engine.IndexAndNameAgree | index.js:73-86 | A category's menu number and its name give identical sessions. |
| Engine.DetailsFinalise | index.js:98-99 | The details state always finalises. `skip` is stored as `NULL` and any other text verbatim, so `skip` and `NULL` give the same row. |
| Engine.DateStepIfEntered | index.js:48-57 | The date state accepts exactly the dddd-dd-dd pattern. It stores the text and its middle digits as the month, returns to the amount state and leaves the other fields. |
| Engine.DateStepHasNoCalendarCheck | index.js:49-54 | The date state accepts `2024-13-45` and stores month 13. |
| Engine.StepProgresses | index.js:47-117 | Each outcome from a well-formed session progresses: it moves one step nearer the end and keeps the date and month. |
| Engine.RunCountsAcceptances | index.js:47-117 | Along any run, the number of acceptances plus the messages still needed stays constant; a finished run yields a complete row with the session's date. |
| Engine.ContinueCounts | index.js:47-117 | The same count holds for the rest of a run after a progressing outcome. |
| Engine.FinishAfterExactlyFive | index.js:21-117 | After `/add` an entry finishes only after exactly five accepted messages, with a complete row carrying the date and month of `/add`. |
| Engine.OpenRunFollowsOrder | index.js:21-117 | Before finishing, after k accepted messages, the session is in the k-th state of the fixed order. |
| Engine.AmountStep | index.js:59-68 | An accepted amount is written into the draft and the session moves to the merchant state. |
| Engine.PayerStep | index.js:88-96 | A listed payer is written into the draft and the session moves to the details state. |
| Engine.EntryOfFiveMessages | index.js:21-117 | Five messages that the amount, category and payer checks accept finish the entry with exactly the values those checks give, together with the date and month of `/add`. |
| Engine.RunFromAmount | index.js:59-117 | From the amount state, the five messages finish with the values they give. |
| Engine.RunFromMerchant | index.js:70-117 | From the merchant state, the last four messages finish with the values they give. |
| Engine.RunFromCategory | index.js:77-117 | From the category state, the last three messages finish with the values they give. |
| Engine.RunFromPayer | index.js:88-117 | From the payer state, the last two messages finish with the values they give. |
| Engine.RunAdvances | index.js:47-117 | An accepted first message carries a run on from the next session. |
| Engine.RunFinishes | index.js:98-116 | The details message ends a run with the draft it completes. |
| SessionStore.AddSession | index.js:21-29 | `/add` gives the chat a fresh session waiting for the amount, with only the date and month. Every other chat is untouched. |
| SessionStore.Handle | index.js:33-124 | Only the message's own chat may change. A row is inserted exactly when the chat's session is removed. No reply, the "use /add" reply and a hint all leave the store as it was. A prompt names the new state. |
| SessionStore.HandleFollowsStep | index.js:43-123 | A reject leaves the store and sends the state's hint; an advance stores the next session and prompts for it; a finalisation removes the session, inserts the row and reports how the insert ended. |
| SessionStore.CommandChangesNothing | index.js:37 | A text starting with `/` changes nothing and gets no reply. |
| SessionStore.IdleChatIsToldToAdd | index.js:38-41 | Plain text, or no text, from a chat without a session creates none and only gets the "use /add" reply. |
| SessionStore.AddDiscardsEarlierDraft | index.js:21-29 | Two stores that differ only in the chat's own entry are equal after `/add`: an earlier draft, in any state or none at all, is discarded, not merged. |
| SessionStore.RejectLeavesStoreUnchanged | index.js:49-52 | A rejected message leaves the whole store, and so the chat's state and draft, as it was. |
| SessionStore.FinishingRemovesSession | index.js:98-123 | The details message hands the row to the insert and removes the session whether the insert succeeds or fails. The next plain text from that chat is told to use `/add`. |
| SessionStore.HandlersPreserveWellFormed | index.js:21-123 | Both handlers keep every session in the store well formed. |
| SessionStore.ReachableStoresAreWellFormed | index.js:14-123 | After any sequence of `/add` commands and messages, every session is well formed and none is in the date state. |
| SessionStore.ReplayFollowsRun | index.js:33-124 | A chat's own plain messages change the store as the engine's run over their texts says: while the run is open the chat holds the run's session, and once it finishes the chat's entry is removed. No other chat changes. |
| SessionStore.StoreEntryFollowsOrder | index.js:21-124 | After `/add`, a chat's plain messages remove its session only once exactly five were accepted and the row is complete. Until then the session is in the state of the fixed order that matches the number accepted. |
| SessionStore.ReplayIgnoresIdleChat | index.js:38-41 | Plain messages from a chat without a session leave the whole store as it is. |
| SessionStore.Store.constructor | index.js:14 | The store starts empty. |
| SessionStore.Store.Add | index.js:21-31 | Updates `userStates` in place as `AddSession` does, replies with the amount prompt, and keeps the store well formed. |
| SessionStore.Store.OnMessage | index.js:33-124 | Updates `userStates` in place and returns the reply and inserted row exactly as `Handle` gives them, and keeps the store well formed. |

## Left out

- The Telegram transport is not modelled: polling, `sendMessage`, the `dotenv` bootstrap and the `/start` welcome. A reply is a tag naming the state whose prompt or hint is sent; the wording of prompts and of the confirmation summary is left out.
- Which handler runs for a message is decided by the transport. The `/add` trigger is an unanchored regular expression, so a text like `hello /add` reaches both the `/add` handler and the `message` handler. The order of those two calls is not modelled; each handler is modelled on its own.
- The Supabase insert is a parameter saying whether it succeeded or reported an error. An exception thrown anywhere else in the handler is not modelled.
- `async`/`await` is not modelled. Two messages from one chat can interleave while the insert is awaited, but each message is handled here as one atomic step.
- The clock reads in `/add` are parameters: the UTC date as YYYY-MM-DD and the local month. `Store.Add` requires the month to be 1..12, as `getMonth() + 1` always is.
- Floating point is not modelled. An amount is the decimal literal `parseFloat` reads, not the double it rounds to.
- Logging is not modelled: `console.log` and `console.error`.
- JsNumbers.ParseInt: the value of a `-0` result is 0. The only use of the value is as an array index, where that makes no difference.
