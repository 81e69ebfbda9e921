# Conversation store of the I-Ai chat page, in Dafny

The chat page (`app.js`) keeps a list of conversations and a pointer to the active one.
Each conversation has an id, an optional title and an ordered list of messages. Each
message has a body, a sender and a timestamp. Every handler that changes the list writes
it back to the `localStorage` entry `conversations`. The exception is "delete all", which
removes that entry (app.js:286). The page hydrates from the entry at start-up. It renders a sidebar history whose rows show a shortened label, and it
hides rows that do not match the search box.

This project models that store and proves what each handler does to it:

- The active pointer is either null or the id of an existing conversation.
- The storage entry holds the list after every operation. It is absent only while the
  list is empty.
- Every operation has a frame, stated in its ensures:
  - Saving a message, clearing, renaming and editing each change at most one conversation,
    and only the part named. They do nothing when the target is missing.
  - Creating a chat appends one empty conversation.
  - Sending may create a chat, then appends the user turn to the active conversation.
    The reply appends the bot turn to whichever conversation is active when it settles.
  - Deleting a conversation removes every conversation with that id and keeps the order
    of the rest. If the deleted one was active, the last remaining conversation becomes
    active, or a new chat is created when none remains.
  - "Delete all" empties the list and clears the pointer.
- Editing by timestamp touches only the first matching message.
- The label is at most 23 characters long.
- The search box is modelled as a function of the rendered rows, so it cannot change the store.

Modules:

- `Wrappers` (wrappers.dfy): `Option`.
- `Text` (text.dfy): the JavaScript string built-ins the store relies on: `trim` with
  ECMAScript's whitespace set, the decimal numeral of `Date.now()`, `toLowerCase` and
  `includes`.
- `Conversations` (conversations.dfy): the records as datatypes. Each handler is also a
  function from the old list to the new one, with its frame in its contract. `Array.find`
  and `Array.filter` are the loops `FindConversation`, `FindMessage` and `FilterOut`, each
  proved equal to a recursive specification.
- `Store` (store.dfy): the class `ConversationStore`. Its fields are `conversations`,
  `activeId` and `stored` (the parsed `localStorage` entry; `None` when the key is absent).
  It has one method per handler. `Valid()` says that `stored` mirrors the list and that
  `activeId` resolves. Every method keeps `Valid()` and states its whole new state.
- `History` (history.dfy): the sidebar label, the rows of the history list, and the search filter.
- `Scenarios` (scenarios.dfy): short sessions checked against the contracts alone.

The outside world enters as parameters:

- The confirm dialog's answer is a `bool`. The prompt dialog's answer is an `Option<string>`.
- `Date.now()` and `new Date()` are `nat`/`int` arguments.
- The fetch outcome is a `Reply` (`Received(output)` or `Failed`).
- Sending is split into `SendMessage` (up to the request) and `ReceiveReply` (the
  continuation). Any interleaving of the two, including overlapping exchanges, is a
  sequence of calls on the store.

Facts about the code that the model follows:

- `saveMessageToHistory` takes no id. It appends to the active conversation, even when
  the active chat changed while a reply was pending.
- `renameConversation` accepts any title. The check for a blank title is in the rename
  prompt's handler (app.js:257).
- `updateMessage` finds the message by timestamp only, so an edit reaches the first
  message in the active conversation with that timestamp.
- The search is matched against the whole row text, which includes the delete icon's text
  (see Findings). `History.Filter` is the corrected, label-only rule.

## Model

| member | source | states |
|---|---|---|
| `Text.Trim` | app.js:110 | `s.trim()` is a slice of `s` with only whitespace outside it and no whitespace at either of its ends; it is empty exactly when every character of `s` is ECMAScript whitespace |
| `Text.TrimStart` | app.js:110 | the result is a suffix of the input, and only whitespace was removed before it |
| `Text.TrimEnd` | app.js:110 | the result is a prefix of the input, and only whitespace was removed after it |
| `Text.Decimal` | app.js:221 | the numeral of `Date.now()` is non-empty, all digits, and a single digit exactly for numbers below 10 |
| `Text.DecimalInjective` | app.js:221 | different numbers have different numerals |
| `Text.Lower` | app.js:341 | lower-casing keeps the length and lowers each character |
| `Text.LowerAppend` | app.js:343 | lower-casing distributes over concatenation |
| `Text.Includes` | app.js:344 | a match implies the term is no longer than the text; the empty term matches any text |
| `Text.IncludesIffOccurs` | app.js:344 | `includes` holds exactly when the term occurs at some position |
| `Text.IncludesAfterPrefix` | app.js:344 | a match survives putting text in front |
| `Text.IncludesBeforeSuffix` | app.js:344 | a match survives appending text |
| `Conversations.ChatId` | app.js:221 | a new chat's id is `"chat-"` followed by the decimal numeral of the clock reading |
| `Conversations.NewChat` | app.js:222 | the pushed object: id `chat-<now>`, no title, no messages |
| `Conversations.ChatIdInjective` | app.js:221 | chats created at different clock readings get different ids |
| `Conversations.Ids` | app.js:188 | the ids, one per conversation, in list order |
| `Conversations.IndexOfId` | app.js:188 | `find` by id: the first conversation with that id, and none exactly when no conversation has it |
| `Conversations.Locate` | app.js:188 | with a `null` pointer nothing is found; otherwise the result is the first conversation with the active id |
| `Conversations.FindConversation` | app.js:209 | the loop finds the first conversation with the id, or reports that none has it, and agrees with `IndexOfId` |
| `Conversations.IndexOfTimestamp` | app.js:315 | `find` by timestamp: the first message with that timestamp, and none exactly when no message has it |
| `Conversations.FindMessage` | app.js:315 | the loop finds the first message with the timestamp, or reports none, and agrees with `IndexOfTimestamp` |
| `Conversations.Without` | app.js:298 | `filter(c => c.id !== id)` never lengthens the list |
| `Conversations.WithoutMembers` | app.js:298 | the filter keeps exactly the conversations whose id differs |
| `Conversations.WithoutIds` | app.js:298 | after the filter, an id is present exactly when it was present and is not the deleted one |
| `Conversations.WithoutAbsent` | app.js:298 | filtering out an id nobody carries changes nothing |
| `Conversations.WithoutAppend` | app.js:298 | the filter works piece by piece over a concatenation, so the relative order of the rest is kept |
| `Conversations.WithoutUnique` | app.js:298 | with unique ids, deleting the conversation at `k` yields exactly the list without position `k` |
| `Conversations.WithoutKeepsUnique` | app.js:298 | the filter keeps ids unique |
| `Conversations.FilterOut` | app.js:298 | the filter loop computes `Without` |
| `Conversations.AppendTo` | app.js:187-194 | only the active conversation changes, gaining exactly the new message at its end; with no active conversation nothing changes; ids are kept |
| `Conversations.AppendToLands` | app.js:188-190 | when the pointer resolves, the new message is last in the active conversation |
| `Conversations.ClearActive` | app.js:229-237 | only the active conversation changes, and its messages become empty; with none active nothing changes |
| `Conversations.Retitle` | app.js:324-331 | only the first conversation with the id changes, and only its title; an unknown id changes nothing |
| `Conversations.EditBody` | app.js:315-317 | only the first message with the timestamp changes, and only its body; senders, timestamps and order are kept |
| `Conversations.EditBodyLastWins` | app.js:312-322 | a second edit of the same timestamp overrides the first |
| `Conversations.EditActive` | app.js:312-322 | only the active conversation's messages change, and only through `EditBody`; no active conversation or no matching message changes nothing |
| `Conversations.SameIdsSameIndex` | app.js:188 | `find` by id depends on the ids alone |
| `Conversations.SameIdsPreserve` | app.js:31-32 | operations that keep the ids keep unique ids and a resolving pointer |
| `Text.IsJsWhitespace` | app.js:110 | the characters `trim` removes: the WhiteSpace and LineTerminator code points of ECMAScript |
| `Store.IsFalsy` | app.js:112 | `!activeConversationId`: the pointer is `null` or the empty string |
| `Store.ReplyBody` | app.js:131-144 | a rejected fetch gives the apology; a reply gives a bot turn exactly when its `output` is a non-empty string |
| `Store.ConversationStore.LoadConversations` | app.js:196-206 | hydrate: the stored list, if any, becomes the list, and its last conversation becomes active |
| `Store.ConversationStore.CreateNewChat` | app.js:220-227 | appends one empty conversation `chat-<now>` at the end, makes it active and writes through; earlier conversations are untouched |
| `Store.ConversationStore.SaveMessageToHistory` | app.js:187-194 | the list becomes `AppendTo` of the active id; storage is written only when the active conversation exists |
| `Store.ConversationStore.LoadConversation` | app.js:208-218 | an existing id becomes active; an unknown id leaves the pointer unchanged; the list is unchanged |
| `Store.ConversationStore.ClearCurrentChat` | app.js:229-237 | the list becomes `ClearActive`; a no-op without an active conversation |
| `Store.ConversationStore.DeleteAllChatHistory` | app.js:281-290 | confirmed: empty list, null pointer, storage entry removed; not confirmed: nothing changes |
| `Store.ConversationStore.DeleteConversation` | app.js:292-310 | confirmed: every conversation with the id goes, in order; if it was active, the last remaining one or a new chat becomes active; otherwise the pointer is unchanged; not confirmed: nothing changes |
| `Store.ConversationStore.UpdateMessage` | app.js:312-322 | the list becomes `EditActive`; storage is written only when a message matched |
| `Store.ConversationStore.RenameConversation` | app.js:324-331 | the list becomes `Retitle`; storage is written only for a known id |
| `Store.ConversationStore.RenameFromPrompt` | app.js:255-260 | a cancelled prompt or a blank title changes nothing; any other answer renames |
| `Store.ConversationStore.EditFromPrompt` | app.js:164-169 | a cancelled prompt changes nothing; any answer, even empty, edits |
| `Store.ConversationStore.SendMessage` | app.js:108-130 | blank input changes nothing and sends nothing; otherwise a chat is created if none is active, the user turn is appended to the active one, and the request carries the input and the active id |
| `Store.ConversationStore.ReceiveReply` | app.js:131-144 | the reply's bot turn, if any, is appended to whichever conversation is active when the fetch settles |
| `Store.Reload` | app.js:196-206 | hydrating from what a store left in storage gives the same list, with its last conversation active, or nothing after "delete all" |
| `History.Truncate` | app.js:250 | the shown text is at most 23 characters: the label itself up to 20, else its first 20 characters and `"..."` |
| `History.Label` | app.js:249 | a non-empty title is the label; an empty label arises only from an empty first message when there is no title |
| `History.DisplayText` | app.js:249-250 | the row text is the label if it has at most 20 characters, else its first 20 characters and `"..."`; at most 23 characters |
| `History.DisplayTextCases` | app.js:249-250 | the row shows the shortened title if it is non-empty, else the shortened first message's body, else `"New Chat"`, and is at most 23 characters long |
| `History.Project` | app.js:241-250 | one row per conversation, in order, with its id and shown label, highlighted exactly when it is the active one |
| `History.OneHighlighted` | app.js:244-246 | with unique ids and a resolving pointer, exactly one row is highlighted; with no active chat, none is |
| `History.Filter` | app.js:340-346 | the search gives one visibility flag per row, true exactly when the row's label matches, and all true for an empty search |
| `History.ItemText` | app.js:265-277 | the row's `textContent`: its shown label followed by the delete icon's text `"delete"` |
| `History.ShownAsWritten` | app.js:343-344 | the rule as written: the lowered term occurs in the lowered `textContent` of the row |
| `History.ShownIffOccurs` | app.js:343-344 | a row is shown exactly when the lower-cased term occurs in the lower-cased label |
| `History.ShownImpliesShownAsWritten` | app.js:343-344 | every row the label-only rule shows, the written rule shows too |
| `History.AsWrittenDeleteMatchesAll` | app.js:265-267 | as written, any search that is part of `"delete"` shows every row |
| `History.AsWrittenCounterexample` | app.js:343 | as written, searching `"delete"` shows a chat labelled `"Hi"` that the label-only rule hides |
| `Scenarios.FirstMessage` | app.js:108-130 | from an empty store, sending "hello" at clock 1000 creates `chat-1000`, holding the user turn, and requests a reply for that chat |
| `Scenarios.HelloScenario` | app.js:108-145 | start empty, send "hello", receive "hi there": one chat holding the two turns in order, shown as "hello" |
| `Scenarios.DeleteOnlyChatScenario` | app.js:301-306 | deleting the only, active chat leaves one new empty active chat shown as "New Chat" |
| `Scenarios.BlankRenameScenario` | app.js:257 | renaming to blanks leaves the chat untitled |
| `Scenarios.DeleteAllThenReloadScenario` | app.js:281-290 | "delete all" followed by a reload gives no chat and no active one |
| `Scenarios.LateReplyScenario` | app.js:136 | send "hello", start a new chat while the fetch is pending, then receive the reply: the reply lands in the new chat and the first chat keeps only the question |

## Left out

- Rendering: `appendMessage`, the loading indicator, the innerHTML resets, scrolling, the
  theme, the sidebar and the pinned-message stub (app.js:147-184, 334-338, 348-388). They only draw
  the state modelled here.
- `Modal.show` (app.js:35-75), a DOM promise. Its outcome is the `confirmed`/`answer` argument.
- `fetch`, the webhook URL and `response.json()` (app.js:121-131) are network I/O. The
  outcome is the `Reply` argument. A non-string truthy `output` (a number, an object) is not
  modelled; `output` is a string or absent.
- JSON serialisation, including dates turned into strings and compared with `getTime()`
  (app.js:191, 199, 315). Timestamps are milliseconds throughout. A corrupt storage entry,
  on which `JSON.parse` throws, is not modelled.
- `marked.parse` (app.js:161), an external library.
- `main.py` is a standalone OpenAI client and is not part of this model.
- `Text.Lower`: lowers ASCII letters only. JavaScript's `toLowerCase` lowers every Unicode letter.
- Characters are Unicode scalar values. JavaScript's `length` and `substring` count UTF-16
  code units, so `History.Truncate` can cut a label in a different place for characters
  outside the Basic Multilingual Plane.
- `Text.Decimal`: covers the integer numerals JavaScript prints below 10^21. `Date.now()` stays far below that.
- The edit handler passes the timestamp of the rendered element (app.js:116, 167). Right
  after a send, that timestamp comes from a different clock read than the stored one
  (app.js:190). `UpdateMessage` takes the timestamp its caller supplies, so the model is
  neutral on whether the two agree.
- Fresh ids are not enforced. `Store.ConversationStore.CreateNewChat` keeps ids unique only
  when `chat-<now>` is not taken already. If two chats are created in the same millisecond,
  `find` resolves the shared id to the older chat.
- Store.ConversationStore.SendMessage: its contract gives the new list as `AppendTo` of the
  active id. That the user turn is then last in the active conversation is stated by
  `Conversations.AppendToLands`, not in the method's own contract; this keeps that proof small.

## Findings

| source | as written | input that shows it | evidently intended | confidence | as-written member | corrected member |
|---|---|---|---|---|---|---|
| app.js:343 | the search is matched against the row's whole `textContent`, which ends with the delete button icon's ligature text `"delete"` (app.js:267) | a chat labelled "Hi" and the search "delete" (or "del", "e"): the row stays visible | match the search against the row's label only | medium, not executed | `History.AsWrittenCounterexample` | `History.Filter` |
