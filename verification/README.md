# Chat-room server: presence and message model

A Dafny model of the chat-room backend in `index.js` (an Express server over
two MongoDB collections). The model keeps the behaviour of the handlers and
drops the transport and the database client. State is two sequences in
insertion order:

- `users`, holding `User(name, lastStatus)`;
- `messages`, holding `Message(from, to, text, kind, time)`.

Each handler is a pure transition that takes the clock as a parameter. A
`Clock` carries the millisecond reading (`now`) and its HH:mm:ss rendering
(`stamp`). A handler returns a status code and the new state.

| module (file) | source | contents |
|---|---|---|
| `ChatState` (`chat_state.dfy`) | shared | records, fixed strings, status codes, the `Valid` invariant, `FindUser` (`findOne` on users) |
| `Participants` (`participants.dfy`) | `POST /participants`, `GET /participants`, `POST /status` | `Register`, `ListParticipants`, `Heartbeat` |
| `Messages` (`messages.dfy`) | `POST /messages`, `GET /messages` | `Post`, the visibility filter `Feed`, `ListMessages`, the `limit` slice |
| `Presence` (`presence.dfy`) | `checkActiveUsers` | `Reap`: stale participants are deleted by name and announced |
| `ChatServer` (`server.dfy`) | the whole server | `Step`/`Run` over events, the invariant on reachable states, scenarios that span handlers |

Modelling choices:

- A request field or header that is missing, or is not a string, is `None`.
- The post body carries a flag for keys other than `to`, `text` and `type`, because the schema refuses such keys. For the same reason, a `from` key in the body gets 422; it never reaches the `from` override.
- A missing `user` header matches no participant. This assumes the MongoDB driver's default of encoding `undefined` as `null`. So `POST /messages` answers 422 and `POST /status` answers 404.
- `GET /messages` answers 400 for a missing header and also for an empty one, because `!user` is true for `""`.
- A `limit` of `0` is the truthy string `"0"`, and `slice(-0)` returns the whole list.
- The reaper deletes with `deleteMany({ name: { $in: … } })`. It is modelled as written, by name (`RemoveNamed`). It equals "delete exactly the stale participants" only when names are unique. `Valid` guarantees that, and `ReapEvictsExactlyStale` proves it.
- `GET /participants` is `ListParticipants`: it returns `users` as stored, so it has no contract and no row below.

Scope and intended behaviour:

- `index.js` has no handler to edit or delete a message, so the model has neither.
- Names and recipients must be alphanumeric, as the Joi schemas at index.js:26-28 and index.js:78-82 require.
- `ListMessages` cuts the feed with `slice(-limit)`, as the code does, so a negative limit drops the oldest entries. A limit that is not positive is evidently meant to return the whole feed; `TakeLast` is that intended step, and Findings records the difference.

## Model

| member | source | states |
|---|---|---|
| ChatState.FindUser | index.js:32 | `findOne({ name })`: yields the first position holding that name, with no earlier one holding it; yields nothing exactly when the name is not registered |
| Participants.Register | index.js:23-50 | 422 exactly when the name is missing or not alphanumeric; 409 exactly when it is valid but already registered; both leave the state unchanged; 201 appends exactly `User(name, now)` and one "entra na sala..." status message to "Todos" |
| Participants.RegisterPreservesValid | index.js:32-37 | a user is inserted only after the lookup failed, so names stay pairwise distinct and alphanumeric |
| Participants.RegisterTwiceConflicts | index.js:32-35 | after a successful registration, a second registration of the same name is answered with 409 and changes nothing |
| Participants.Heartbeat | index.js:128-143 | 404 exactly for a missing or unregistered user, with no state change; otherwise 200; messages and the sequence of names are never changed |
| Participants.HeartbeatRefreshesOnlyNamed | index.js:132-139 | with unique names, the named user's `lastStatus` becomes `now` and every other user is unchanged, in place |
| Participants.HeartbeatPreservesValid | index.js:136-138 | a heartbeat keeps the invariant: names are untouched |
| Messages.Post | index.js:61-96 | 201 exactly when the sender is registered and alphanumeric and the body has an alphanumeric `to`, a non-empty `text`, `type` "message" or "private_message" and no other key; on 201 exactly one message is appended, with `from` set to the sender; on 422 nothing changes; users are never changed |
| Messages.PostAcceptsRegisteredSender | index.js:65-85 | in a valid state the sender's alphanumeric check is implied by registration: 201 exactly when the sender is registered and the body is accepted |
| Messages.PostPreservesValid | index.js:78-91 | a stored post always has type "message" or "private_message" |
| Messages.Feed | index.js:107-116 | the filtered log holds exactly the messages of the log that the viewer may read: those the viewer sent or received, and every status or public message |
| Messages.FeedCounts | index.js:107-116 | a visible message occurs in the filtered log exactly as often as in the log, and an invisible one never |
| Messages.FeedAppend | index.js:107-116 | filtering commutes with concatenation, so the filtered log keeps insertion order |
| Messages.FeedOne | index.js:108-114 | a single message passes the filter exactly when it is visible to the viewer |
| Messages.FeedSnoc | index.js:107-116 | appending a message extends a viewer's feed by that message exactly when it is visible to them |
| Messages.PrivateAudience | index.js:108-113 | a private message is visible exactly to its sender and its recipient; status and public messages are visible to every viewer |
| Messages.PostedMessageAudience | index.js:87-116 | after a successful post, a viewer's feed is the old feed plus the new message exactly when it is public or the viewer is its sender or recipient |
| Messages.Slice | index.js:124 | JavaScript `slice(start)`: a suffix of the list whose length is `min(-start, n)` for a negative start, otherwise `n - min(start, n)` |
| Messages.SliceLimitAsWritten | index.js:124 | `slice(-limit)`: the newest `min(limit, n)` entries for a positive limit, the whole list for zero, and the list without its `min(-limit, n)` oldest entries for a negative limit |
| Messages.NegativeLimitDropsOldest | index.js:124 | as written, a negative limit returns a strictly shorter suffix, dropping the oldest entries |
| Messages.NegativeLimitExample | index.js:124 | `limit=-1` over three messages returns only the last two |
| Messages.TakeLast | index.js:121-124 | the corrected limit step: a suffix of length `min(limit, n)` for a positive limit, and the whole list otherwise |
| Messages.TakeLastAgreesOnNonNegative | index.js:121-124 | for every limit of zero or more, the corrected step returns what the code returns |
| Messages.FilterVisible | index.js:106-116 | the single pass over the log computes exactly the viewer's feed |
| Messages.ListMessages | index.js:98-126 | 400 exactly for a missing or empty viewer, with an empty result; otherwise 200 with the viewer's feed cut as `slice(-limit)` cuts it: the whole feed when the limit is absent or zero; for a positive limit exactly the newest `limit` entries (all of them when the feed is shorter), in order, as a suffix of the feed; for a negative limit the feed without its `-limit` oldest entries; for every limit of zero or more this is the intended `TakeLast` step |
| Presence.StaleUsers | index.js:153 | the selected users are exactly those whose age `now - lastStatus` exceeds 10000 |
| Presence.ActiveUsers | index.js:153 | the remaining users are exactly those whose age is at most 10000, so an age of exactly 10000 survives |
| Presence.RemoveNamed | index.js:158 | `deleteMany` with `$in`: keeps exactly the users whose name is not listed |
| Presence.Reap | index.js:145-172 | with no stale user the state is unchanged; otherwise a user remains exactly when its name is not a stale user's name; the log gains exactly one "sai da sala..." status message to "Todos" per stale user, in registry order, after the old log |
| Presence.RemoveNamedKeepsActive | index.js:153-158 | deleting by name equals keeping the live users when the listed names pick out exactly the stale ones |
| Presence.StaleNamesSelectStale | index.js:153-158 | with unique names, a user's name is among the stale names exactly when that user is stale |
| Presence.ReapEvictsExactlyStale | index.js:147-158 | with unique names, the reaper leaves exactly the live users, unchanged and in their original order |
| Presence.NothingToRemove | index.js:154-156 | deleting with an empty name list keeps every user |
| Presence.ReapPartitions | index.js:153 | the live users and the stale users together are exactly the registry as a multiset: each user is kept or selected for eviction, exactly once |
| Presence.ConsDistinct | index.js:158 | a user whose name no remaining user has can precede them without breaking uniqueness |
| Presence.RemoveNamedDistinct | index.js:158 | deleting users keeps the remaining names pairwise distinct |
| Presence.ReapPreservesValid | index.js:158-168 | the reaper keeps the invariant; departure notices are status messages |
| ChatServer.StepPreservesValid | index.js:23-168 | each request and each reaper tick keeps unique alphanumeric names and known message types |
| ChatServer.RunPreservesValid | index.js:23-174 | any sequence of requests and ticks keeps the invariant |
| ChatServer.ReachableStatesAreValid | index.js:32-44 | in every state reachable from empty collections, no two users share a name and every message has a known type |
| ChatServer.StaleParticipantLeavesAndIsAnnounced | index.js:153-168 | a user idle for more than 10000 ms is gone after a tick, and the notice of their departure appears in every viewer's feed |
| ChatServer.HeartbeatKeepsParticipant | index.js:136-153 | a user whose heartbeat is at most 10000 ms old when the reaper runs is still registered afterwards |
| ChatServer.RegistrationScenario | index.js:26-48 | on an empty server "Alice" is accepted, a second "Alice" conflicts, and an empty or missing name is refused |

## Left out

- Express routing, CORS, JSON parsing and `app.listen` (index.js:1-13, 176): transport only.
- The MongoDB client and connection (index.js:15-21). Collections are in-memory sequences, and `_id`s have no effect on behaviour.
- Store failures and the partial states they leave: the `catch` branches answering 422 or 500 on a database error, and a user insert that succeeds while its status insert fails. There is no failure model for the store.
- The `setInterval` schedule (index.js:174). Each handler and each reaper tick is one atomic step, so the races between check-then-insert and scan-then-delete are not modelled.
- The reaper's early return on an empty registry (index.js:150-152) has the same effect as finding no stale user. `Reap` keeps it, but no separate property states it.
- `Date.now()` and `dayjs().format`. One `Clock` reading per handler call stands for every clock read inside that call, and `time` is an opaque string.
- Joi internals. `alphanum` is a predicate over ASCII letters and digits, and a value that is not a string is treated as missing.
- `limit` values that are not integers. `limit` is an optional integer, so two cases are left out. A non-numeric query becomes `NaN`, and `slice(NaN)` returns the whole feed. A fractional one such as `"2.5"` gives `slice(-2.5)`, which returns the last 2 entries.
- `console.log` and error logging.

## Findings

| source | as written | input that shows it | evidently intended | confidence | as-written member | corrected member |
|---|---|---|---|---|---|---|
| index.js:121-124 | `messages.slice(-limit)` for any truthy `limit` | `GET /messages?limit=-1` over three visible messages returns the last two | a limit that is not positive returns the whole feed; a positive one returns the newest entries | medium, not executed | Messages.NegativeLimitDropsOldest | Messages.TakeLast |
