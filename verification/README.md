# Broadcast bot: verified model of the draft workflow

This project models the core of a Telegram broadcast bot (`index.js`).
- An operator sends the bot a text or photo message.
- The bot keeps that message as a pending draft under its message id.
- The bot replies with a two-button prompt whose callback data is `send_<id>` / `cancel_<id>`.
- On `send_<id>` the bot sends the draft to every row of its user table, greeting each recipient by first name, and drops the draft.
- On `cancel_<id>` it drops the draft.
- Senders without authorization are refused and recorded in the user table with flag 0.

The model has four modules:
- `CallbackData` (`callback_data.dfy`) is the callback-data codec. `Encode` renders the payload like the template literal does. `Decode` is the two anchored patterns `^send_(\d+)$` / `^cancel_(\d+)$` followed by parseInt.
- `Users` (`users.dfy`) models `DbManager`'s `users` table as a map from `tg_id` to the row. Two pure functions give the effect of `INSERT OR IGNORE` (`Inserted`) and of `UPDATE … WHERE tg_id = ?` (`Updated`). The class `UserTable` holds the table and has one method per `DbManager` operation of the core.
- `Broadcast` (`broadcast.dfy`) models `BotController` as the class `Controller`. Its fields are:
  - `pending`, the `pendingMessages` Map;
  - `outbox`, everything the bot hands to the Telegram API, in order;
  - the `UserTable`;
  - `intro`, the greeting line as an uninterpreted function of the first name.

  The class has one method per handler. The fan-out of the `send_` handler is the method `SendToAll`, a `while` loop over the rows proved against the pure specification `FanOut`. Each iteration calls `SendToRow`, which models the per-recipient callback.
- `Scenarios` (`scenarios.dfy`) chains handler calls on one controller. These runs are proved from the handlers' contracts alone.

The code is followed where it differs from the design text of the system:
- The broadcast goes to every row of the table, authorized or not. `getUserDetails` has no filter.
- A second draft under an id that is already pending replaces the first (`Map.set`). There is no duplicate-handle error.
- `cancel_<id>` drops the id and answers "Sending cancelled." even when nothing was pending.
- A photo message is accepted whatever the length of its size array. The last size is the one that is sent.
- A draft is looked up, then the table is read, and only then is the draft deleted. There is no atomic check-and-remove. The model runs each handler as one step and claims nothing about interleaved handlers.

JavaScript truthiness is modelled explicitly:
- An empty `text` counts as absent.
- A `photo` array counts as present even when it is empty.
- An empty or absent caption becomes `''`.

For a photo draft with an empty size array, reading the last size throws inside each recipient's callback, so that draft sends nothing (`FanOutUndeliverable`). Telegram always delivers at least one size for a photo, so this covers an input the platform does not produce. The throw is an unhandled promise rejection. Its effect depends on the runtime: on Node.js 15 and later with default flags it ends the process, probably before the prompt edit that `OnConfirm` records after the sends.

## Model

| member | source | states |
|---|---|---|
| `CallbackData.Digits` | index.js:143-144 | the id in a button payload is rendered as canonical decimal digits, with no leading zero unless the id is 0 |
| `CallbackData.DecodeEncode` | index.js:143-155 | decoding `send_<n>` or `cancel_<n>` yields that decision and that n, for every natural n |
| `CallbackData.EncodeDecode` | index.js:154-155 | a decoded payload whose digits have no leading zero is exactly the payload the prompt emits for the decoded decision and id |
| `CallbackData.DecodeIffPaddedEncoding` | index.js:154-155 | a payload is routed to decision k and id n exactly when it is k's prefix, then any number of extra `'0'`s, then the canonical digits of n: the handlers accept exactly the payloads the prompt emits, padded with leading zeros |
| `CallbackData.LeadingZerosIgnored` | index.js:155 | leading `'0'`s in front of a digit string leave its decimal value unchanged |
| `CallbackData.MalformedSuffixRejected` | index.js:191-192 | after either prefix, an empty suffix or one that holds a non-digit matches neither handler |
| `CallbackData.LeadingZerosAccepted` | index.js:155 | parseInt accepts leading zeros, so `send_007` names draft 7 while the prompt for 7 carries `send_7` |
| `CallbackData.ValueOfDigits` | index.js:155 | parsing the rendered digits of n gives back n |
| `CallbackData.DigitsOfValue` | index.js:155 | rendering the value of canonical digits gives back those digits |
| `Users.Inserted` | index.js:71-91 | insert-or-ignore: the result has the old keys plus the sender's id, every existing row is unchanged, and a new row holds the profile with the given flag |
| `Users.Updated` | index.js:93-102 | the keys are unchanged, only the named row's flag changes and its other fields are kept, and a missing id changes nothing |
| `Users.InsertNeverGrants` | index.js:71-91 | recording a sender with the default flag 0 never changes anybody's authorization |
| `Users.InsertIgnoresRepeat` | index.js:72-73 | a second insert for the same id leaves the table as the first left it, whatever profile it carries |
| `Users.UpdateAuthorizesOne` | index.js:44-50 | setting the flag to 1 authorizes that id exactly when its row exists, and no other id changes |
| `Users.ListsLength` | index.js:32-42 | a full result of getUserDetails has exactly one row per user in the table |
| `Users.UserTable.constructor` | index.js:13-16 | the table starts with the rows the database file already holds |
| `Users.UserTable.AddUser` | index.js:71-91 | the table afterwards is the insert-or-ignore of the profile with the flag, which defaults to 0 |
| `Users.UserTable.SetAuthorization` | index.js:93-102 | the table afterwards is the old one with that row's flag updated |
| `Users.UserTable.AuthorizeUser` | index.js:44-50 | the flag becomes 1 for that id; afterwards the id is authorized exactly when its row exists, and every other id's authorization is unchanged |
| `Users.UserTable.IsUserAuthorized` | index.js:52-65 | answers true exactly when a row exists for the id and its flag is 1; a missing row answers false |
| `Users.UserTable.GetUserDetails` | index.js:32-42 | returns every row's tg_id and first_name exactly once, authorized or not, in some order |
| `Broadcast.PromptButtons` | index.js:142-144 | the prompt has two buttons; the first carries exactly `send_<id>` and the second exactly `cancel_<id>`, so they decode back to confirm and to cancel for the same draft id |
| `Broadcast.FanOutShape` | index.js:159-181 | for a deliverable draft, row i gets the i-th send. A photo draft sends the last photo size with caption intro(first_name) + "\n" + (caption or ""). A text draft sends intro(first_name) + "\n" + text |
| `Broadcast.FanOutUndeliverable` | index.js:165-167 | a photo draft with no sizes issues no send at all |
| `Broadcast.FanOutOncePerRow` | index.js:158-159 | over rows with distinct ids, each listed id gets exactly one send and no other id gets any |
| `Broadcast.BroadcastReachesEveryUser` | index.js:158-181 | a confirmed deliverable draft sends exactly one message to every user in the table, authorized or not, and none to anybody else |
| `Broadcast.Controller.constructor` | index.js:121-128 | the bot starts with no pending draft and nothing sent |
| `Broadcast.Controller.OnMessage` | index.js:131-152 | the three outcomes. An unauthorized sender gets the refusal, is inserted with flag 0, and no draft is added. An authorized text or photo message is filed under its id, overwriting any earlier draft with that id, and gets the prompt. Any other authorized message gets the unsupported-content reply and changes nothing. Every draft stays filed under its own id |
| `Broadcast.Controller.OnConfirm` | index.js:154-189 | on a pending id: the fan-out over a full listing of the current table, then the two acknowledgements, and the id is dropped. On an absent id: only "no longer available", and nothing else changes |
| `Broadcast.Controller.SendToAll` | index.js:159-181 | the outbox grows by exactly the fan-out of the draft over the given rows, in row order |
| `Broadcast.Controller.SendToRow` | index.js:160-180 | the outbox grows by that row's delivery. A photo draft gets its last size with the intro and the caption, or `''` when there is none. A text draft gets the intro and the text. A photo draft without sizes adds nothing |
| `Broadcast.Controller.OnCancel` | index.js:191-196 | drops exactly that id, whether or not it was pending, keeps the other drafts, and acknowledges the cancellation |
| `Broadcast.Controller.OnCallbackQuery` | index.js:154-192 | a payload is dispatched to the confirm or cancel handler by its decoded kind and id; a payload that matches neither pattern changes nothing |
| `Scenarios.CancelThenConfirm` | index.js:191-196 | after a cancel, a confirm for that id answers "no longer available" and sends nothing |
| `Scenarios.CancelTwice` | index.js:191-196 | cancelling is idempotent on the drafts: the id is gone and every other draft is kept. The second cancel only adds a second pair of acknowledgements to the outbox |
| `Scenarios.ConfirmTwice` | index.js:156-188 | in a sequential run a draft is broadcast once; a second confirm adds only "no longer available" |
| `Scenarios.RepeatedUnauthorizedMessage` | index.js:132-135 | two messages from one unauthorized sender give two refusals and no draft. The sender has exactly one row and stays unauthorized. The second message leaves the table unchanged |
| `Scenarios.PromptThenConfirm` | index.js:138-185 | an authorized message and then a press on the prompt's first button give the prompt, then one send per row of the table as it is at confirmation time, then the acknowledgements; the draft is no longer pending |

## Left out

- SQLite I/O. Opening the file, `CREATE TABLE`, the SQL text and the `console` logging are not modelled. The table is a map and every query or update is one atomic step.
- Database errors. The error callbacks and promise rejections of `DbManager` are not modelled; the model assumes the database always answers.
- `dropTable` and `getAllUserIDs`: neither is used by the handlers.
- The Telegram client: `Bot`, `hydrate`, `bot.start` and the environment loading. Replies, callback answers, prompt edits and sends are abstract `Outbound` records. `parse_mode`, `disable_web_page_preview` and the keyboard layout are not kept.
- The two URL buttons attached to every broadcast are not kept. The literal greeting is not kept either; `intro` stands for it.
- `Broadcast.Controller.OnConfirm`: does not model concurrency. The source reads the draft, awaits the table, and only then deletes the draft. The per-recipient sends are not awaited. Handlers are single atomic steps here, and no at-most-once guarantee under interleaved callbacks is claimed.
- `Broadcast.Controller.OnConfirm`: does not model per-recipient send failures, nor the throw on a photo without sizes. Both are unhandled promise rejections in the source. Their effect depends on the runtime; on Node.js 15 and later with default flags the process ends, probably before the final prompt edit. The model lets the remaining sends and the edit happen.
- Which message `editMessageText` edits. The edit is recorded without its target.
- The unused `authorizedUsers` constructor argument.
- parseInt loses precision above 2^53 in the source. The model parses digits exactly. Message ids are natural numbers, since `\d+` cannot capture a sign.
- `Users.UserTable.GetUserDetails`: does not fix the row order. SQL without `ORDER BY` promises none, so the order is left open.
- A callback query that matches neither pattern reaches no handler and is left unanswered. The model records nothing for it.
- Profile fields other than id, first name, last name, username and language code are not modelled. The first name is always present.
