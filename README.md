# WhatsApp-style message store, ingestion and chat view — a Dafny model

This project models the deterministic core of a small WhatsApp-clone: the backend script
that ingests WhatsApp Cloud API webhook payload files into the `processed_messages`
collection, the HTTP handlers that send a local message and read the history and the
conversation list, the Mongoose schema of a message, and the two React components that
merge live messages into the open chat and shorten previews in the conversation list.

Modules, one per source file, plus three helpers and one worked scenario:

- `MessageModel` (backend/models/message.js): the `Message` record, the `Status`
  enumeration, schema defaults, the two unique indexes (`_id` and `(wa_id, message_id)`)
  as the invariant `IndexesHold`, and the class `Collection` whose `records` every writer
  replaces.
- `Ingestion` (backend/scripts/processPayloads.js): payload datatypes with optional
  fields, the specification functions `AfterInsert`, `AfterStatus`, `AfterFile`,
  `AfterFiles`, the methods `InsertMessage`, `UpdateStatus`, `ProcessFile` and the
  per-file loop `ProcessAll` over a `Collection`.
- `Controller` (backend/controllers/messages.js): `SendMessage` over a `Collection` and a
  `Broadcaster` outbox, specified by `Send`; the queries `GetMessages` and
  `GetConversations`.
- `ChatView` (frontend/src/components/Chatwindow.jsx): the dual-key dedupe, the list
  updaters, the delivery tick, and the class `ChatWindow` holding `messages` and `text`.
- `Sidebar` (frontend/src/components/Sidebar.jsx): `Truncate`, the list's `Preview` and `FormatTime`.
- `Wrappers` (Option/Result), `Sorting` (insertion sort on an integer key standing for the
  database's sort stage), `Numerals` (decimal rendering of `Date.now()` in the local id).
- `Scenarios`: one worked run through ingestion and the conversation list.

The clock, the database's generated `_id`s and every network reply are parameters.
Socket emissions are appended to an outbox; their delivery is not modelled.

Behaviours a reader might not expect, all taken as the code has them:

- Status updates overwrite (processPayloads.js:81); there is no monotonic lattice.
  `Scenarios.StaleStatusOverwrites` shows a stale "sent" after "delivered" ending at "sent".
- Insertion dedupes on `message_id` alone (processPayloads.js:61), not on
  `(wa_id, message_id)`: a message whose id is stored under another conversation is dropped.
- The client history load replaces the list (Chatwindow.jsx:68); live events are not
  buffered, and ones appended earlier are discarded.
- Ingestion publishes nothing; only `sendMessage` emits.
- Local ids are `local_<ms>`; nothing keeps them apart from external ids, and two sends to
  one conversation in the same millisecond fail with 500.
- The database sort promises no order among equal timestamps, so none is proved.

## Model

| member | source | states |
|---|---|---|
| `MessageModel.StatusNamed` | backend/models/message.js:12 | a name is found only for an enumeration member with that name; no member has a name that is not found |
| `MessageModel.StatusNameRoundTrip` | backend/models/message.js:12 | each of sent, delivered, read, unknown is found again by its name |
| `MessageModel.WithDefaults` | backend/models/message.js:4-13 | an omitted `from_me` is false, an omitted status is "sent" (an enumeration member), an omitted timestamp is the creation time; given fields are kept |
| `MessageModel.InsertDocument` | backend/models/message.js:18 | a write fails with a duplicate key exactly when a stored record shares `_id` or `(wa_id, message_id)`; otherwise the document is appended and both unique indexes still hold |
| `MessageModel.Create` | backend/models/message.js:4-12 | a validating create refuses an empty `wa_id` or `message_id` and a status outside the enumeration, and is otherwise the index-checked insert |
| `Ingestion.ParseTimeStamp` | backend/scripts/processPayloads.js:31-33 | the instant is a whole number of seconds in milliseconds and reads back as the given seconds |
| `Ingestion.InsertSkipsIncomplete` | backend/scripts/processPayloads.js:37-43 | a missing or empty `contacts` or `messages` leaves the collection unchanged |
| `Ingestion.InsertExistingUnchanged` | backend/scripts/processPayloads.js:60-64 | if any record, of any conversation, has the message's id, the collection is unchanged |
| `Ingestion.InsertNewRecord` | backend/scripts/processPayloads.js:45-64 | an unseen id with a free `_id` appends one record: `wa_id = phone = contact.wa_id`, `message_id = meta_msg_id = message.id`, body or "", profile name or none, status "sent", time in ms, `from_me` iff sender differs from the contact |
| `Ingestion.InsertKeepsIndexes` | backend/scripts/processPayloads.js:60-64 | a successful insertion keeps both unique indexes |
| `Ingestion.StatusUpdateEffect` | backend/scripts/processPayloads.js:77-81 | every record selected by `id` (or by `meta_msg_id` when `id` is absent) gets the incoming status; nothing else changes, in any record |
| `Ingestion.StatusWithoutMatchUnchanged` | backend/scripts/processPayloads.js:71-81 | no first status entry, or one that selects nothing, leaves the collection unchanged and is not an error |
| `Ingestion.StatusKeepsIndexes` | backend/scripts/processPayloads.js:81 | a status update keeps both unique indexes |
| `Ingestion.StatusIdempotent` | backend/scripts/processPayloads.js:81 | applying the same status value twice equals applying it once |
| `Ingestion.StatusLastWriterWins` | backend/scripts/processPayloads.js:81 | on a record the later value selects, the later status wins whatever came before: updates are not monotonic |
| `Ingestion.FileWithoutValueIgnored` | backend/scripts/processPayloads.js:86-94 | an unreadable file, or one without `metaData.entry[0].changes[0].value`, changes nothing |
| `Ingestion.MessagesTakePriority` | backend/scripts/processPayloads.js:96-97 | a value with `messages` is inserted whatever its `statuses`, and a failed insertion leaves the collection as it was |
| `Ingestion.StatusesRouted` | backend/scripts/processPayloads.js:98-102 | without `messages`, a value with `statuses` is a status update and one with neither changes nothing |
| `Ingestion.FileKeepsIndexes` | backend/scripts/processPayloads.js:86-106 | processing any file keeps both unique indexes |
| `Ingestion.FilesKeepIndexes` | backend/scripts/processPayloads.js:126-128 | processing any sequence of files keeps both unique indexes |
| `Ingestion.ReplayStoresOnce` | backend/scripts/processPayloads.js:60-64 | replaying one message file N >= 1 times appends exactly the one record of the first pass, and exactly one record carries its id |
| `Ingestion.InsertMessage` | backend/scripts/processPayloads.js:36-67 | the collection becomes `AfterInsert` of the old one, or stays as it was with the thrown error returned; the indexes hold |
| `Ingestion.UpdateStatus` | backend/scripts/processPayloads.js:70-83 | the collection becomes `AfterStatus` of the old one; the indexes hold |
| `Ingestion.ProcessFile` | backend/scripts/processPayloads.js:86-106 | the collection becomes `AfterFile` of the old one; no error escapes |
| `Ingestion.ProcessAll` | backend/scripts/processPayloads.js:126-128 | the files are processed in order, the collection ends as `AfterFiles` of the old one, and the indexes hold |
| `Scenarios.StaleStatusOverwrites` | backend/scripts/processPayloads.js:77-81 | message "hi", then "delivered", then a stale "sent": the record ends at "sent" and the list has one row with last message "hi" |
| `Numerals.ValueOfDecimal` | backend/controllers/messages.js:17 | the decimal numeral of a time reads back as that time |
| `Controller.LocalIdsDiffer` | backend/controllers/messages.js:17 | sends in different milliseconds get different `message_id`s |
| `Controller.SendRejectsIncomplete` | backend/controllers/messages.js:9-11 | a missing or empty `wa_id` or `text` gives 400, writes nothing and emits nothing |
| `Controller.SendStoresOne` | backend/controllers/messages.js:13-37 | with no clash: 201 with the one appended record (request fields, `from_me`, "sent", `local_<now>`); emits `new_message` to the room `wa_id`, then `conversation_update` to all |
| `Controller.SendClashFails` | backend/controllers/messages.js:13-41 | when the new record breaks a unique index: 500, nothing written, nothing emitted |
| `Controller.SameMillisecondRejected` | backend/controllers/messages.js:13-41 | a second send to the same conversation in the same millisecond gets 500 |
| `Controller.SendKeepsIndexes` | backend/controllers/messages.js:13-23 | sending keeps both unique indexes |
| `Controller.SendPublishesCommitted` | backend/controllers/messages.js:25-26 | an emitted message is already stored, and goes only to its own conversation's room |
| `Controller.SendMessage` | backend/controllers/messages.js:5-42 | reply, new collection and appended emissions are those of `Send`; the indexes hold |
| `Controller.MessagesOf` | backend/controllers/messages.js:47 | each record of conversation `w` occurs as often as stored; no other record occurs |
| `Sorting.SortBy` | backend/controllers/messages.js:47 | the result is a permutation of the input in non-decreasing key order |
| `Controller.GetMessages` | backend/controllers/messages.js:44-53 | exactly the records of `wa_id = w`, as a permutation, ordered by non-decreasing timestamp |
| `Controller.SentMessageListed` | backend/controllers/messages.js:47 | after a successful send, the record is in its conversation's history |
| `Controller.WaIds` | backend/controllers/messages.js:59-60 | each `wa_id` in the collection exactly once, and no other |
| `Controller.Latest` | backend/controllers/messages.js:58-66 | a record of the conversation with the largest timestamp in it |
| `Controller.GetConversations` | backend/controllers/messages.js:55-74 | one row per distinct `wa_id`; `lastTime` is the group's largest timestamp and name, phone, last message come from a record with it; rows by non-increasing `lastTime` |
| `Controller.SingleRecordConversation` | backend/controllers/messages.js:57-69 | a collection of one record lists exactly one row, taken from that record |
| `ChatView.ExistsInList` | frontend/src/components/Chatwindow.jsx:39-42 | false for a missing message; else true iff some entry has an equal present `message_id` or an equal present `_id` |
| `ChatView.AppendedAtTail` | frontend/src/components/Chatwindow.jsx:99-102 | an existing identity leaves the list unchanged, else the message is appended; old entries keep their places; length grows by at most one |
| `ChatView.AbsentIdsNeverMatch` | frontend/src/components/Chatwindow.jsx:41 | a message with neither id present is always appended |
| `ChatView.ResponseAndEchoOnce` | frontend/src/components/Chatwindow.jsx:99-129 | the send response and the live echo of one record, in either order, add exactly one entry |
| `ChatView.StoredRecordHasIdentity` | frontend/src/components/Chatwindow.jsx:41 | a stored record's two arrivals share an identity |
| `ChatView.AppendedKeepsNoDuplicates` | frontend/src/components/Chatwindow.jsx:99-102 | merging keeps the list free of entries sharing an identity |
| `ChatView.HistoryHasNoDuplicates` | frontend/src/components/Chatwindow.jsx:68 | a history served from a collection whose indexes hold has no two entries sharing an identity |
| `ChatView.TrimStart` | frontend/src/components/Chatwindow.jsx:114 | the result is a suffix of the text that is empty or starts with a non-space, and the dropped prefix is all whitespace |
| `ChatView.TrimEnd` | frontend/src/components/Chatwindow.jsx:114 | the result is a prefix of the text that is empty or ends with a non-space, and the dropped suffix is all whitespace |
| `ChatView.TrimEmptyIffBlank` | frontend/src/components/Chatwindow.jsx:114 | `trim()` is empty exactly when the text is all whitespace |
| `ChatView.OutgoingAccepted` | frontend/src/components/Chatwindow.jsx:114-116 | a non-blank text posted from a chat with a `wa_id` passes the server's 400 check |
| `ChatView.TickIgnoresCase` | frontend/src/components/Chatwindow.jsx:185-191 | a tick only on one's own messages, and lower-casing the status does not change it |
| `ChatView.TickOfEnumStatus` | frontend/src/components/Chatwindow.jsx:185-191 | for one's own message: sent is one tick, delivered two, read two blue, unknown none |
| `ChatView.ChatWindow.constructor` | frontend/src/components/Chatwindow.jsx:9-10 | the view starts with no messages and empty text |
| `ChatView.ChatWindow.SelectChat` | frontend/src/components/Chatwindow.jsx:5 | a new chat prop keeps the list and the text |
| `ChatView.ChatWindow.Type` | frontend/src/components/Chatwindow.jsx:208 | the input sets the text |
| `ChatView.ChatWindow.HandleNewMessage` | frontend/src/components/Chatwindow.jsx:94-104 | missing or other-chat messages change nothing, else the dedupe merge; a duplicate-free list stays so |
| `ChatView.ChatWindow.FetchMessages` | frontend/src/components/Chatwindow.jsx:60-78 | without a chat `wa_id` nothing changes; on success the list becomes the fetched data (empty for an empty body), dropping anything appended before; on failure it is kept |
| `ChatView.ChatWindow.SendMessage` | frontend/src/components/Chatwindow.jsx:113-116 | a blank text posts nothing; otherwise the chat's `wa_id`, name, phone and the text are posted |
| `ChatView.ChatWindow.OnSendSettled` | frontend/src/components/Chatwindow.jsx:118-136 | success merges the saved record and clears the text; failure changes neither; a duplicate-free list stays so |
| `Sidebar.Truncate` | frontend/src/components/Sidebar.jsx:27-30 | missing or empty text gives ""; text within `maxLength` is unchanged; longer text keeps its first `maxLength` characters plus "…"; never over `maxLength + 1` |
| `Sidebar.TruncateIdempotent` | frontend/src/components/Sidebar.jsx:27-30 | truncating a truncated text changes nothing |
| `Sidebar.Preview` | frontend/src/components/Sidebar.jsx:89 | a preview is at most 41 characters; a last message of up to 40 is shown whole, a longer one as its first 40 characters followed by "…" |
| `Sidebar.FormatTime` | frontend/src/components/Sidebar.jsx:21-25 | a missing or empty time gives ""; any other time shows its rendering |

## Left out

- Database connection, environment loading, reading the payload folder and the `.json` filter, and logging: files are given already parsed, with `Unreadable` for a file that cannot be read or parsed.
- Express routing, CORS, axios and HTTP framing: replies are `Created`/`BadRequest`/`ServerError` and the client receives either a failure or the body.
- socket.io: rooms, `join_room`, listener registration and delivery. Emissions are appended to the `Broadcaster` outbox; nothing about who receives them is modelled.
- Database failures other than a duplicate key or a failed validation (lost connection, timeouts); so the 500 replies of `getMessages` and `getConversations` are not modelled.
- Concurrency and atomicity of writes; every operation is one atomic step.
- Date formatting and locale (`formatDateLabel`, `toLocaleTimeString`); `FormatTime` takes the rendered text as a parameter. Rendering, scrolling, document title and favicon.
- The `raw` field of a record.
- `Number(ts)` on a non-integer or non-numeric string: timestamps are integer seconds.
- Payload fields the code reads without checking (`contact.wa_id`, `message.id`, `message.from`, `status.status`) are present strings in the model; what the upsert or update filter does with `undefined` there is the driver's business.
- Ingestion.Selects: a status entry with neither `id` nor `meta_msg_id` is taken to select the records with no `meta_msg_id` (the null-matching reading of an `undefined` filter value); other driver settings may strip the key instead.
- Ingestion.AfterInsert: "required" on `wa_id` and `message_id` is not an invariant of the collection: the upsert with `$setOnInsert` runs no validators, so a payload with an empty contact `wa_id` or message `id` is stored as is; only `MessageModel.Create` enforces it.
- Ingestion.AfterStatus: the status is stored as received; whether the schema's enum validator would refuse a value outside it on `updateMany` depends on settings not in the code.
- Controller.SendMessage: the code reads the clock twice (id and timestamp); the model uses one `now` for both.
- The sort order among equal timestamps, in both queries: the database does not promise one, and no lemma states one.
- ChatView.ChatWindow: sending is split at its `await` into `SendMessage` and `OnSendSettled`, so live messages may interleave; React's batching of state updates is not modelled.
- Sidebar.Truncate: lengths count Unicode scalar values, while JavaScript counts UTF-16 code units; they differ only for characters outside the Basic Multilingual Plane.
- ChatView.LowerAscii: only ASCII capitals are lowered; no other character lowercases into the letters of "sent", "delivered" or "read", so the tick is unaffected.
- ChatView.ChatWindow.FetchMessages: the reply is not tied to the chat that requested it; a late reply for a chat left meanwhile replaces the open chat's list, as in the component, whose guard is read at request time while the model reads it at reply time.
- The conversation list's live `conversation_update` handling: the component ignores its socket prop.
