# cosmic-chat message synchronisation, modelled in Dafny

This project models the client-side logic of the cosmic-chat web client. That logic keeps the open conversation's message list duplicate-free, builds the conversation list, and validates the chat and group dialogs. Everything else in the client is React rendering and Supabase calls. Those calls become inputs here: a query's answer, a write's success or failure message, a profile lookup's result.

The modules follow the client's structure:

- `Wrappers`: `Option`, `Response` (data or an error message) and `WriteResult`.
- `Text`: JavaScript `trim`, with the exact ECMAScript white-space set, and the code-point order the model uses for timestamp text.
- `Messages`: the message and profile records, plus the duplicate-guarded append. Both push handlers and both send confirmations apply this append (`prev.some(m => m.id === x.id) ? prev : [...prev, x]`). The module also has the reconciliation poll's "not yet seen" filter.
- `Push`: the relevance test for live INSERT events and the push handler.
- `Fallback`: the channel-status callback that arms and clears the 3-second fallback interval. Timers are explicit identifiers. The module covers when that interval runs, not what its ticks fetch (see "## Left out").
- `SendGuard`: `handleSend`. It trims and clears the draft, keeps the in-flight token set (`sentMessageIds`) and merges the confirmed row. The 5000 ms delayed delete is an explicit `Expire` step. The token (`temp-${Date.now()}` in the client) is a parameter. The client makes a new token on every call, so the in-flight test only catches two sends in the same millisecond. What stops a second click is the cleared draft: the next call returns at the blank-text test (`SendGuard.SecondClickFindsBlankDraft`).
- `Polling`: the 3-second `checkNewMessages` tick and the 1-second `fetchNewMessages` tick.
- `Directory`: `fetchChats`. It keeps one summary per direct-chat counterpart, one per group membership, and sorts the list newest first, with `'0'` for a chat without messages.
- `ChatDialogs`: `startNewChat` (no chatting with yourself) and `handleAddMember` (no duplicate membership).
- `GroupCreation`: `CreateGroupDialog`, covering the user search, the input check, the member rows and the write sequence group → members → seed message.

Three behaviours of the client are worth stating up front, because a reader might expect otherwise:
- The client appends merges in arrival order; it does not insert by timestamp. Commutativity therefore holds for the multiset of entries, not for the order (`Messages.AbsorbCommutes`).
- The double-submit guard compares the per-send token only, not the content.
- A chat without messages sorts by the key `'0'`, not by creation time.

## Model

| member | source | states |
|---|---|---|
| Text.Trim | app/chat/page.tsx:269 | the trimmed text is a slice of the input, everything cut off on either side is white space, and the slice neither starts nor ends with white space |
| Text.TrimEmptyIffBlank | app/chat/page.tsx:267 | trimming gives the empty string exactly when the input is all white space, which is the blank-input test |
| Text.TrimCuts | app/chat/page.tsx:269 | names the two cut points: all white space before the first and from the second on, and the trimmed text between them |
| Text.TrimIdempotent | app/chat/page.tsx:269 | trimming a trimmed text changes nothing |
| Messages.AnyWithId | app/chat/page.tsx:218 | the front-to-back `some` scan is true exactly when some entry carries the identifier |
| Messages.Absorb | app/chat/page.tsx:216-222 | a present identifier leaves the list unchanged; otherwise the message is appended, old entries stay an untouched prefix, and the no-duplicate-id invariant is kept |
| Messages.AbsorbIdempotent | app/chat/page.tsx:218-221 | merging the same message twice gives the same list as merging it once |
| Messages.EchoRaceSameIds | app/chat/page.tsx:303-308 | whether the push echo or the insert response arrives first, the resulting id sequence is the same and holds the server id exactly once |
| Messages.AbsorbCommutes | app/chat/page.tsx:247-253 | two deliveries with distinct ids give the same multiset of entries in either order |
| Messages.Unseen | app/chat/page.tsx:777-779 | the poll filter keeps an order-preserving selection of the batch; every kept row has an id the list lacks, and every batch row with such an id is kept |
| Messages.UnseenCounts | app/chat/page.tsx:777-779 | each row is kept as many times as the batch holds it when its id is new, and not at all otherwise, repeats included |
| Messages.UnseenUnique | app/chat/page.tsx:777-779 | a batch with distinct ids gives a filtered batch with distinct ids |
| Push.Relevant | app/chat/page.tsx:206-239 | an accepted direct row has me and the open chat among its two participants; an accepted group row names the open chat |
| Push.RelevantIff | app/chat/page.tsx:206-239 | a direct event is accepted iff its sender/receiver pair is {me, open chat}; a group event iff its group is the open chat |
| Push.DirectRelevantToBothSides | app/chat/page.tsx:206-207 | a direct message is relevant to both participants, each viewing the chat with the other |
| Push.OnPush | app/chat/page.tsx:202-256 | a rejected event leaves the list unchanged; an accepted one with a new id is appended with the fetched sender profile; the invariant is kept |
| Push.OnPushIdempotent | app/chat/page.tsx:247-253 | the same event delivered twice is merged once |
| Fallback.Start | app/chat/page.tsx:173 | a new subscription starts with no interval and a consistent handle |
| Fallback.OnStatus | app/chat/page.tsx:177-192 | SUBSCRIBED leaves no interval running; any other status leaves exactly one running and arms a new one only if none was armed |
| Fallback.Cleanup | app/chat/page.tsx:258-263 | cleanup stops the running interval but leaves the handle variable as it was |
| Fallback.AtMostOneInterval | app/chat/page.tsx:173-192 | over any sequence of statuses, at most one fallback interval runs, and one runs iff the last status was not SUBSCRIBED |
| Fallback.CleanupStopsAll | app/chat/page.tsx:258-263 | after any statuses, cleanup leaves no interval running |
| Fallback.LateCloseArmsInterval | app/chat/page.tsx:258-263 | as written, a CLOSED status after cleanup (with push connected) arms an interval that nothing clears |
| Fallback.NoIntervalAfterClose | app/chat/page.tsx:258-263 | once cleanup also marks the subscription closed, no interval runs after it, whatever statuses follow |
| Directory.Find | app/chat/page.tsx:276 | the lookup finds the first entry with the id, and finds nothing exactly when no entry has it |
| SendGuard.TargetFor | app/chat/page.tsx:276-278 | a send goes to the direct table iff the open chat is listed as direct, and to the group table otherwise, including when the chat is not listed |
| SendGuard.BeginSend | app/chat/page.tsx:267-298 | blank text or a missing chat or user is a no-op; otherwise the draft is cleared; an in-flight token stops the send; otherwise the token is added and an insert of the trimmed, non-blank text by the current user is issued |
| SendGuard.FinishSend | app/chat/page.tsx:300-313 | an error removes the token and adds nothing; a confirmed row is merged by the duplicate guard and its token waits for the delayed delete |
| SendGuard.Expire | app/chat/page.tsx:311-313 | the delayed delete removes only that token from the in-flight set, and only its own scheduled delete from the pending ones |
| SendGuard.TokenLifecycle | app/chat/page.tsx:273-356 | the token is in the set during the insert and gone after an error, or after success plus the delayed delete; the list gains the confirmed row exactly as the guard dictates |
| SendGuard.DoubleSubmitIgnored | app/chat/page.tsx:279-282 | a second submit with a token still in flight issues no insert |
| SendGuard.SecondClickFindsBlankDraft | app/chat/page.tsx:267-270 | once a send has begun the draft is empty, so a second press before typing changes nothing and issues no insert, whatever token it would use |
| Polling.CheckNew | app/chat/page.tsx:759-782 | with no chat, user or messages nothing happens; otherwise the list keeps its prefix and gains an order-preserving selection of the answer for the last timestamp, each added row with an id the list lacked, and every id of the answer ends up in the list |
| Polling.CheckNewCounts | app/chat/page.tsx:769-781 | after a tick each row occurs as often as before, plus as often as the answer holds it when its id was new; repeated rows in the answer are appended each time |
| Polling.CheckNewKeepsAscending | app/chat/page.tsx:762-782 | with an answer ascending and strictly newer than the watermark, an ascending list stays ascending |
| Polling.PollDeliversMissed | app/chat/page.tsx:769-782 | a message the store returns for the watermark is in the list after the tick, exactly once |
| Polling.Watermark | app/chat/page.tsx:574-575 | the 1-second poller uses the snapshot's last timestamp, and the current time when the snapshot is empty or that timestamp is the empty string |
| Polling.FirstRow | app/chat/page.tsx:589 | at most the first row of the answer is taken |
| Polling.FetchNew | app/chat/page.tsx:570-606 | no chat, an error or an empty answer leaves the list; a non-empty answer for the snapshot's watermark always appends its first row, with no id check, and nothing else |
| Polling.FetchNewSafeWhenNewer | app/chat/page.tsx:574-606 | with the snapshot equal to the list and rows strictly newer than its last timestamp, the plain append keeps the list duplicate-free and ascending |
| Polling.StaleSnapshotDuplicates | app/chat/page.tsx:621-624 | with the snapshot frozen at [a], two ticks append b twice |
| Polling.FetchNewChecked | app/chat/page.tsx:570-606 | the corrected tick reads the watermark from the current list; an error or empty answer leaves the list as it is; otherwise the first row is merged by the duplicate guard (`Absorb`), so the list never gains a duplicate |
| Polling.CheckedTicksKeepUnique | app/chat/page.tsx:621-623 | any number of corrected ticks keep the list duplicate-free |
| Directory.Counterpart | app/chat/page.tsx:456-457 | when I am a participant of the row, the counterpart and I are exactly its two participants; a row I did not send has its sender as counterpart |
| Directory.Summarize | app/chat/page.tsx:459-465 | a direct summary carries the counterpart's id, the counterpart profile's display name (`username || email`), and the row itself as last message |
| Directory.DisplayName | app/chat/page.tsx:463 | the name is the username unless it is missing or empty, then the email |
| Directory.DirectChats | app/chat/page.tsx:454-467 | each counterpart appears at most once, and every row whose counterpart profile is present yields its counterpart's chat |
| Directory.DirectChatsKeepFirst | app/chat/page.tsx:459-465 | each direct summary is that of the first eligible row for its counterpart; the counterpart is the receiver if I sent, else the sender |
| Directory.DirectChatsKeepNewest | app/chat/page.tsx:428-467 | given rows newest first, the kept last message is at least as new as every row for that counterpart whose profile was joined |
| Directory.GroupSummary | app/chat/page.tsx:470-478 | a group summary carries the group's id and name, and its last message is the first embedded message, or none when there is none |
| Directory.GroupChats | app/chat/page.tsx:470-479 | one summary per membership whose last message is its group's first embedded message; a membership without a group fails the refresh |
| Directory.Key | app/chat/page.tsx:483-484 | the sort key is never empty: a chat without a last message, or whose timestamp is empty, sorts as "0"; otherwise the key is the timestamp |
| Directory.InsertByRecency | app/chat/page.tsx:482-486 | inserting into a list sorted newest first keeps it sorted and adds exactly that entry |
| Directory.SortByRecency | app/chat/page.tsx:482-486 | the result is a permutation of the input sorted by last-message timestamp, newest first, with '0' for none |
| Directory.FetchChats | app/chat/page.tsx:417-491 | any fetch failure keeps the old list; otherwise the list is the direct then group summaries, permuted and sorted newest first |
| Directory.EmptyChatsSortLast | app/chat/page.tsx:483-485 | in a sorted list, a chat without messages comes after every chat with an ISO timestamp |
| Directory.SortThree | app/chat/page.tsx:482-486 | chats ordered by key as older, newer, none sort to newer, older, none |
| Directory.RecencyExample | app/chat/page.tsx:482-486 | chats A (at :05), B (at :10) and C (none) are listed B, A, C |
| ChatDialogs.StartNewChat | app/chat/page.tsx:359-382 | a chat opens iff the lookup found a profile that is not the current user; otherwise the dialog shows "User not found" or "You can't chat with yourself!" |
| ChatDialogs.AddMemberPress | app/chat/page.tsx:663-702 | no chat or blank email does nothing, and otherwise the press acts; a failed or empty lookup shows "User not found" without a write; an existing member is refused with "User is already a member" without a write; the insert names the open group and a non-member; success refetches the list and clears the field |
| GroupCreation.ErrorText | components/CreateGroupDialog.tsx:113 | the error shown is the failure's message, or "Failed to create group. Please try again." when that is empty |
| GroupCreation.SelectedRows | components/CreateGroupDialog.tsx:85-88 | one member row per selected user, in selection order, for the new group |
| GroupCreation.MemberRows | components/CreateGroupDialog.tsx:83-89 | member rows are the creator first, then each selected user, all for the new group; the count is 1 + the number selected |
| GroupCreation.CreateGroup | components/CreateGroupDialog.tsx:61-116 | an empty trimmed name or empty selection sets the fixed error and writes nothing; otherwise the first write is the group row with the trimmed name and the creator, and loading ends cleared |
| GroupCreation.CreateGroupSuccess | components/CreateGroupDialog.tsx:97-110 | when all three writes succeed: group, members, seed message "Group created", then notify and close, and the form is reset |
| GroupCreation.CreateGroupInsertFails | components/CreateGroupDialog.tsx:71-80 | a failed group insert issues only that write, runs no callback, shows the failure message or the fallback text, keeps the input and clears loading |
| GroupCreation.CreateGroupNoRow | components/CreateGroupDialog.tsx:80-81 | a group insert that returns no row stops there with "No group data returned", and no callback runs |
| GroupCreation.CreateMembersFail | components/CreateGroupDialog.tsx:83-95 | a failed membership insert comes after the group row, stops before the seed message, and runs no callback |
| GroupCreation.CreateSeedFails | components/CreateGroupDialog.tsx:97-105 | a failed seed message comes after both earlier writes and still runs no callback |
| GroupCreation.SearchUsers | components/CreateGroupDialog.tsx:41-59 | a term shorter than two characters is ignored; otherwise the answer replaces the offered users or an error is shown |

## Left out

- Supabase query construction and execution, the profile fetch in the push handlers, and the inserts are not modelled. Their answers are parameters. A poll's query is a function from watermark to rows, and the model assumes the store's stated ordering and filtering wherever a lemma relies on them.
- Timers and the clock are explicit: ticks, status callbacks and the delayed token delete are separate calls, and `Date.now()` / `new Date()` are parameters.
- Polling.CheckNew: assumes the list snapshot the closure captured equals the list the updater receives. This fits the always-on interval (app/chat/page.tsx:807-812), which is re-created whenever `messages` changes; a race inside one tick is not modelled.
- The fallback interval's ticks are not modelled. That interval (app/chat/page.tsx:189) runs the `checkNewMessages` captured when the subscription was set up, and the subscription effect depends only on the user and the chat (116-128). Its snapshot is therefore the list at that moment. That list is empty for the first chat opened after the page loads, or when the previously open chat had no messages, whatever the newly opened chat holds; then every tick returns at line 760 without fetching. When it is the previous chat's list, the filter at 778 compares against the wrong ids and re-appends rows on each tick. `Fallback` models only when the interval is armed and cleared, and the reconciliation the page does get comes from the always-on interval.
- Push.OnPush: each handler has one await, the sender-profile fetch (app/chat/page.tsx:210-214). The relevance test (206-207, 239) runs before it and the list update after it, against whatever list is current when the fetch resolves; the model takes `OnPush`'s list to be that list. Interleavings between handlers are not modelled.
- Directory.SortByRecency: compares timestamps by code-point order instead of `localeCompare`. The two agree except when one key falls on a whole second and the other has a fraction in that same second (`2024-05-01T00:00:05+00:00` against `2024-05-01T00:00:05.5+00:00`): `localeCompare` puts `.` before `+` and so ranks the whole-second key as newer, while code-point order ranks the fractional one as newer. The contract does not state that ties keep input order, although the definition is a stable insertion sort like `Array.prototype.sort`.
- Directory.FetchChats: a summary's last message is reduced to its id, content and timestamp, the only fields the list uses.
- GroupCreation.SearchUsers: measures the term in Unicode scalar values; JavaScript's `length` counts UTF-16 code units, which differs only for characters outside the Basic Multilingual Plane. The server-side exclusion of the current user is part of the answer.
- ChatDialogs.AddMemberPress: the `loading` flag and the contents of the refetched member list are not modelled, only that a refetch happens.
- `fetchInitialMessages` (replacing the list on chat switch), `checkUser`, `handleLogout`, `handleChatSelect`, `fetchGroupDetails` and `fetchMembers` are I/O plumbing around the core and are not modelled. So are scrolling and all rendering.
- app/page.tsx (sign-in and profile bootstrap) is not part of this model.

## Findings

| source | as written | input that shows it | evidently intended | confidence | as-written member | corrected member |
|---|---|---|---|---|---|---|
| app/chat/page.tsx:621-624 | the 1-second poller's interval is created with dependencies `[selectedChat, currentUser]`. It reads its watermark from the `messages` captured when the effect ran, but appends the fetched row to the current list with no id check (line 606) | captured snapshot `[a]` and current list `[a]`, with the store holding `b` newer than `a`: the first tick gives `[a, b]`, the second `[a, b, b]` | read the watermark from the current list, or merge through the same id check as every other path | not executed; medium (the snapshot is non-empty when the user switches from a chat that had messages) | Polling.StaleSnapshotDuplicates | Polling.FetchNewChecked |
| app/chat/page.tsx:258-263 | cleanup clears the interval but neither resets `pollingInterval` nor detaches the status callback | push connected (variable null), then cleanup, then the channel reports CLOSED: an interval is armed that nothing ever clears | cleanup marks the subscription closed and later statuses are ignored | not executed; low (assumes the channel library reports CLOSED to the subscribe callback after `unsubscribe`) | Fallback.LateCloseArmsInterval | Fallback.NoIntervalAfterClose |
