# Chat relay backend: a verified model

This project models the Go backend of a room-based chat relay, `ws-vue-go-demo/backend/main.go`. It covers five parts:

- **Rooms.** A global registry maps each room id to the set of connected clients. A WebSocket session joins a room, relays every text frame it reads to all members of the room, and leaves the room when reading fails.
- **Broadcast.** `broadcastToRoom` writes a frame to every member of the room. A member whose write fails is closed and removed from the room, and the loop carries on with the rest.
- **Message log.** Each relayed message is first inserted into a SQLite table. The table's AUTOINCREMENT key gives the message an id. The message is broadcast even when the insert failed; it then keeps id 0.
- **History.** `GET /history` returns one page of a room's messages, ordered by timestamp. The page is a `LIMIT`/`OFFSET` window. Page numbers and limits that are absent, not numbers, zero or negative fall back to page 1 and 30 messages.
- **Input handling.** The standard-library routines the code depends on are modelled too: `strings.TrimSpace` for the join parameters and `strconv.Atoi` for paging. So is Go's 64-bit `int` wrap-around.

The model is sequential, one module per concern:

- `Base`: the option type and 64-bit integers.
- `Text`: TrimSpace and Atoi.
- `Messages`: the message table, as a class whose `SaveMessage` method appends rows.
- `History`: the query, the paging and the handler.
- `Rooms`: clients and the registry, as classes updated in place, with the join, leave and broadcast effects as functions over the room map.
- `Session`: `handleWS` as a method built from a read loop.

The environment is passed in as parameters:

- the inbound frames, with the time each was read and whether saving it fails;
- a `writeFails` predicate saying which connections fail on write;
- whether the upgrade fails;
- whether the history query fails.

## Model

| member | source | states |
|---|---|---|
| `Base.Wrap64` | ws-vue-go-demo/backend/main.go:87 | the 64-bit result of an `int` computation is in range, congruent to the exact value mod 2^64, and equal to it when no overflow occurs |
| `Text.TrimSpace` | ws-vue-go-demo/backend/main.go:126-127 | the trimmed string neither starts nor ends with white space, and it is empty exactly when the argument is all white space |
| `Text.TrimSpaceIsSlice` | ws-vue-go-demo/backend/main.go:126-127 | the trimmed string is one contiguous stretch of the argument, with only white space before and after it |
| `Text.TrimmedSlice` | ws-vue-go-demo/backend/main.go:126-127 | dropping white space from the front and then from the back leaves one contiguous stretch of the argument, with only white space around it, neither starting nor ending with white space, and empty exactly when the argument is all white space |
| `Text.LeadingSpaceDropped` | ws-vue-go-demo/backend/main.go:126-127 | trimming the front keeps a suffix that is empty or starts with a non-space, and what it drops is white space |
| `Text.TrailingSpaceDropped` | ws-vue-go-demo/backend/main.go:126-127 | trimming the back keeps a prefix that is empty or ends with a non-space, and what it drops is white space |
| `Text.Atoi` | ws-vue-go-demo/backend/main.go:203-206 | a parsed value is a 64-bit `int`, the text starts with a digit or a sign, and a negative value was written with `-` |
| `Text.AtoiDigits` | ws-vue-go-demo/backend/main.go:203-206 | a run of digits, bare or after a `+` or `-` sign, parses to its value exactly when that value fits in an `int`, and is an error otherwise |
| `Text.AtoiAcceptsOnlySignedDigits` | ws-vue-go-demo/backend/main.go:203-206 | whatever parses is an optional `+` or `-` followed by one or more digits, and its value is the digits' value, negated after `-` |
| `Text.AtoiFormatInt` | ws-vue-go-demo/backend/main.go:203-206 | every `int`, spelled in decimal, is read back as itself |
| `Text.AtoiRejects` | ws-vue-go-demo/backend/main.go:203-206 | the empty string, a number with a space before or after it, and numbers beyond the `int` range in either direction are errors |
| `Text.DecimalRoundTrip` | ws-vue-go-demo/backend/main.go:203-206 | the decimal spelling of a natural number has that number as its value |
| `Messages.IncreasingIdsAreDistinct` | ws-vue-go-demo/backend/main.go:56 | rows with strictly increasing ids are pairwise distinct |
| `Messages.MessageLog.constructor` | ws-vue-go-demo/backend/main.go:54-62 | a fresh table is empty and has handed out no id |
| `Messages.MessageLog.SaveMessage` | ws-vue-go-demo/backend/main.go:72-80 | the insert succeeds unless storage fails or the ids are exhausted. A success appends exactly the message, under an id one above the last and above every stored id. A failure leaves the table and the message's id unchanged. Both keep ids increasing and bounded |
| `History.RoomRowsSelects` | ws-vue-go-demo/backend/main.go:88 | `WHERE room = ?` keeps exactly the rows of that room, and nothing else |
| `History.RoomRowsKeepIdOrder` | ws-vue-go-demo/backend/main.go:88 | the room's rows keep the log's increasing ids |
| `History.InsertByTsPermutes` | ws-vue-go-demo/backend/main.go:88 | inserting a message into a sorted list adds exactly that message (as a multiset) |
| `History.InsertByTsSorts` | ws-vue-go-demo/backend/main.go:88 | inserting into a list sorted by timestamp keeps it sorted |
| `History.SortByTsSortsAndPermutes` | ws-vue-go-demo/backend/main.go:88 | `ORDER BY ts ASC` yields a timestamp-sorted permutation of its input |
| `History.SortedInputUnchanged` | ws-vue-go-demo/backend/main.go:88 | messages already in timestamp order come back in the same order |
| `History.InsertKeepsDistinct` | ws-vue-go-demo/backend/main.go:88 | inserting a new message into a duplicate-free list keeps it duplicate-free |
| `History.SortKeepsDistinct` | ws-vue-go-demo/backend/main.go:88 | sorting keeps a duplicate-free list duplicate-free |
| `History.OrderedMembers` | ws-vue-go-demo/backend/main.go:88 | the ordered result has as many messages as the room has rows, each one a row of the log in that room |
| `History.Window` | ws-vue-go-demo/backend/main.go:88 | `LIMIT l OFFSET o` returns the elements from position `o` on, at most `l` of them, and nothing when `o` is at or past the end |
| `History.WindowWithin` | ws-vue-go-demo/backend/main.go:88 | a window has at most `l` elements, all from the sequence, and it is sorted when the sequence is |
| `History.EffectiveLimit` | ws-vue-go-demo/backend/main.go:84-86 | the limit used is at least 1: the one given when positive, 20 otherwise |
| `History.Offset` | ws-vue-go-demo/backend/main.go:87 | the offset is never negative, and it is zero exactly for page 1 and below |
| `History.OffsetCountsWholePages` | ws-vue-go-demo/backend/main.go:87 | the offset of page `p` is exactly `p - 1` whole pages |
| `History.OffsetGrows` | ws-vue-go-demo/backend/main.go:87 | a later page starts at least one full page after an earlier one |
| `History.PageShape` | ws-vue-go-demo/backend/main.go:83-101 | a page holds at most `limit` messages, all from the room and sorted by timestamp; it is empty exactly when its offset is at or past the room's message count |
| `History.ConsecutivePagesAdjoin` | ws-vue-go-demo/backend/main.go:83-101 | pages `p` and `p + 1` of the same size together are the ordered messages from page `p`'s offset on, two pages long, with no gap |
| `History.FirstPagesArePrefix` | ws-vue-go-demo/backend/main.go:83-101 | reading pages 1 to k in turn yields exactly the room's first `k * limit` ordered messages, so paging loses nothing and repeats nothing |
| `History.PagesAreDisjoint` | ws-vue-go-demo/backend/main.go:83-101 | with the log's unique ids, two different pages of the same size share no message |
| `History.AppendOrderPages` | ws-vue-go-demo/backend/main.go:83-101 | when a room's messages were appended in timestamp order, page `p` is the slice `[(p-1)*limit, p*limit)` of them in append order, and it is empty past the end |
| `History.NonPositiveInputsActAsDefaults` | ws-vue-go-demo/backend/main.go:84-87 | a page of at most 1 with a limit of at most 0 reads the same messages as page 1 with a limit of 20 |
| `History.OffsetAsWritten` | ws-vue-go-demo/backend/main.go:87 | the offset as the code computes it is a 64-bit value, equal to the true offset for any page whenever `(page - 1) * limit` fits in an `int` |
| `History.PageAsWrittenAgrees` | ws-vue-go-demo/backend/main.go:83-101 | whenever `(page - 1) * limit` fits in an `int`, the page the code's query selects is exactly the page at the true offset |
| `History.MulSign` | ws-vue-go-demo/backend/main.go:87 | a product with a positive factor keeps the other factor's sign and is at least as far from zero, which bounds the offset product |
| `History.OverflowedOffsetRepeatsFirstPage` | ws-vue-go-demo/backend/main.go:87 | page 2^62 + 1 is a page number the handler accepts. With limit 4 its 64-bit offset wraps to 0, so the query as written serves the first page again, where the true page is empty |
| `History.OverflowWrapsToZero` | ws-vue-go-demo/backend/main.go:87 | `(2^62 + 1 - 1) * 4` is 2^64 exactly, and in 64-bit arithmetic it is 0 |
| `History.PositiveParam` | ws-vue-go-demo/backend/main.go:201-208 | the page or limit passed on is a positive `int`. It is the parsed number when that is a positive `int`, and the default otherwise |
| `History.PositiveParamExamples` | ws-vue-go-demo/backend/main.go:201-208 | a spelled positive number is taken as is; an empty value, `0` and `-5` give the default |
| `History.LoadHistory` | ws-vue-go-demo/backend/main.go:83-101 | the row-copy loop returns exactly the rows the query selects with the code's 64-bit offset, which is the requested page whenever `(page - 1) * limit` fits in an `int`, and an error exactly when the query fails |
| `History.HistoryHandler` | ws-vue-go-demo/backend/main.go:192-216 | a missing room is a bad request; a failing query is a server error. Otherwise the response is the query's page for the clamped page and limit, with the code's 64-bit offset, encoded as JSON `null` when empty; when the offset does not overflow, it is the requested page |
| `Rooms.Client.Write` | ws-vue-go-demo/backend/main.go:113 | a write delivers the frame exactly when the transport does not fail, and does not close the connection |
| `Rooms.Client.Close` | ws-vue-go-demo/backend/main.go:116 | closing marks the connection closed and delivers nothing |
| `Rooms.Joined` | ws-vue-go-demo/backend/main.go:142-147 | registration creates the room's set if it was absent, adds the client, and changes no other room |
| `Rooms.Left` | ws-vue-go-demo/backend/main.go:186-188 | deregistration removes exactly that client from its room and keeps the room's entry. Other rooms are unchanged, and removing an absent client changes nothing |
| `Rooms.LeaveIsIdempotent` | ws-vue-go-demo/backend/main.go:117-119 | leaving twice equals leaving once, so the cleanup after a broadcast has already removed the client is harmless |
| `Rooms.AfterBroadcast` | ws-vue-go-demo/backend/main.go:104-122 | after a broadcast the room holds its old members minus exactly those whose write failed; no room is created and other rooms are untouched |
| `Rooms.ReplayMembership` | ws-vue-go-demo/backend/main.go:38-39 | after any sequence of joins and leaves, a room holds exactly the clients whose last operation on it was a join |
| `Rooms.DistinctClientsCommute` | ws-vue-go-demo/backend/main.go:38-39 | operations of two different clients commute, so the interleaving of sessions does not change the registry |
| `Rooms.ApplyCommutes` | ws-vue-go-demo/backend/main.go:38-39 | applying the operations of two different clients in either order gives the same registry |
| `Rooms.ApplyCommutesAt` | ws-vue-go-demo/backend/main.go:38-39 | the same, room by room: the members of every room agree in both orders |
| `Rooms.Registry.constructor` | ws-vue-go-demo/backend/main.go:38 | the registry starts empty |
| `Rooms.Registry.Join` | ws-vue-go-demo/backend/main.go:142-147 | the registry becomes `Joined` of the old one |
| `Rooms.Registry.Leave` | ws-vue-go-demo/backend/main.go:186-188 | the registry becomes `Left` of the old one |
| `Rooms.Registry.BroadcastToRoom` | ws-vue-go-demo/backend/main.go:104-122 | the registry becomes `AfterBroadcast` of the old one. Every old member whose write fails is closed and receives nothing; every other member receives the frame exactly once |
| `Session.ValidateParams` | ws-vue-go-demo/backend/main.go:126-131 | a request is rejected exactly when the username or the room is absent or all white space; otherwise the session uses the trimmed values, which are non-empty |
| `Session.EventsAreInOrder` | ws-vue-go-demo/backend/main.go:177-182 | the message events match the relayed messages one for one, in the same order |
| `Session.PersistedAreTheSaved` | ws-vue-go-demo/backend/main.go:172-175 | the log keeps exactly the relayed messages that were given an id |
| `Session.Relay` | ws-vue-go-demo/backend/main.go:165-182 | the message carries the session's room and sender and the frame's text and time, and it gets id `lastId + 1` exactly when saving does not fail and ids remain, id 0 otherwise. The log's last id moves to the new id or stays. The log grows by the message exactly when it got an id, and the room is broadcast the message whether or not it was saved |
| `Session.HandleWS` | ws-vue-go-demo/backend/main.go:124-190 | a blank username or room is a bad request. That, and a failed upgrade, leave the registry, the log and every member untouched. Otherwise the session ends disconnected, with everything `Serve` states: every relayed message carries the id assigned at its turn, and the log's last id advances once per saved message |
| `Session.Serve` | ws-vue-go-demo/backend/main.go:139-189 | the client joins, is welcomed, relays every inbound frame, or only the first when its own write fails, and leaves. The room ends with its old members less the failed ones. The log gains exactly the saved messages, each relayed message carries the id assigned at its turn, and the log's last id advances once per saved message. The client and every other member receive the events in order |
| `Session.Enter` | ws-vue-go-demo/backend/main.go:139-155 | a new client for the connection is registered in the room and sent the welcome notice, which arrives unless its write fails |
| `Session.Exit` | ws-vue-go-demo/backend/main.go:186-189 | the client is removed from its room and its connection closed, with nothing more delivered |
| `Session.LeftAfterSession` | ws-vue-go-demo/backend/main.go:186-188 | once the session has left, its own join is undone and the room keeps its earlier members, less those dropped by a broadcast |
| `Session.ReadLoop` | ws-vue-go-demo/backend/main.go:158-183 | the loop relays the inbound frames in order until the input ends or its own connection has been closed. The log gains exactly the saved messages, each relayed message carries the id its turn assigned, the log's last id advances once per saved message, and every member's received frames and closed flag follow from the relayed messages |
| `Session.ReadOne` | ws-vue-go-demo/backend/main.go:159-182 | one turn of the loop relays the next inbound frame and keeps the loop's description of the log (rows, assigned ids and last id), the room and every member's connection |
| `Session.RelayStep` | ws-vue-go-demo/backend/main.go:177-182 | one more relay closes a failing member, delivers nothing more to an already failed one, and appends the new event for everyone else |
| `Session.BroadcastDuring` | ws-vue-go-demo/backend/main.go:182 | a broadcast during a session keeps the room as the members present, less those whose write fails, and changes nothing else |
| `Session.RelayedFromSnoc` | ws-vue-go-demo/backend/main.go:166-171 | relaying one more frame keeps every relayed message built from its inbound frame with the session's room and sender, and with the id assigned at its turn |
| `Session.Recorded` | ws-vue-go-demo/backend/main.go:172-182 | after one more relay, the relayed messages still match their frames and ids, the log holds its earlier rows plus exactly the saved relayed messages, and its last id is the one reached after that many frames |
| `Session.SavedUnlessStorageFails` | ws-vue-go-demo/backend/main.go:172-175 | while ids remain, a frame's message is given an id exactly when its storage does not fail |
| `Session.LastIdAfterBounds` | ws-vue-go-demo/backend/main.go:56 | after `n` frames the last id has grown by at least 0 and at most `n` |

## Left out

- Database setup is not modelled: the `ensureDB` file probe, the WAL pragma, schema creation and SQL text and row scanning. The table is an in-memory sequence of rows, and a storage failure is a parameter.
- The AUTOINCREMENT counter is modelled as the largest id handed out. Once the largest 64-bit id has been used, an insert fails, as SQLite's does; which error SQLite reports is not modelled.
- The error from `LastInsertId` is ignored by the code and is not modelled.
- WebSocket I/O is foreign code. The upgrade result is a parameter. Reads are a finite sequence of inbound frames, and reading stops when they run out or when the session's own connection has been closed by a failed broadcast write. Any other read error is a shorter sequence.
- Session.HandleWS: whether a connection's writes fail is one fixed predicate for the whole run. A connection cannot fail on one write and succeed on a later one.
- JSON encoding is library serialisation and is not modelled: the broadcast payload, the welcome text and the history body. Frames are datatypes, and the history response is `JsonNull` or `JsonArray` of the page.
- Timestamps from `time.Now()` are inputs: the join time and each frame's read time.
- The `sync.Mutex` and the goroutine per connection are not modelled. Every registry operation is one atomic step. `Rooms.ReplayMembership` and `Rooms.DistinctClientsCommute` state what holds under any interleaving of joins and leaves. A broadcast interleaved with another session's join is not modelled, nor is the data race of ranging over a room's set outside the lock.
- `Rooms.Registry.BroadcastToRoom` visits members in some order the model leaves open, as Go's map iteration does.
- The code encodes an empty history as JSON `null` (a nil slice), not as an empty array. The model follows the code.
- History.SortByTs: SQL leaves the order of rows with equal timestamps unspecified. The model fixes one order, stable in log order. The paging properties (`History.ConsecutivePagesAdjoin`, `History.FirstPagesArePrefix`, `History.PagesAreDisjoint`) hold for any one fixed timestamp-sorted order that every query uses, not for queries that each order ties differently. `History.SortedInputUnchanged` and `History.AppendOrderPages` depend on the stable choice. The index `idx_room_ts` on `(room, ts DESC)` (main.go:62) may lead SQLite to return rows with equal timestamps in descending id order instead; this was not executed.
- History.HistoryPage: the page uses the corrected offset (see Findings), and the paging lemmas are stated about it. `History.LoadHistory` and `History.HistoryHandler` follow the code's wrapped offset, and `History.PageAsWrittenAgrees` ties the two together when the offset product fits in an `int`.
- `main`, static file serving and logging are process plumbing and are not modelled.
- `ws-demo/server.js` is an echo demo made of library calls and is not part of this model.

## Findings

| source | as written | input that shows it | evidently intended | confidence | as-written member | corrected member |
|---|---|---|---|---|---|---|
| ws-vue-go-demo/backend/main.go:87 | `offset := (page - 1) * limit` multiplies two 64-bit `int`s, and historyHandler accepts any positive page | `?page=4611686018427387905&limit=4` (page 2^62 + 1): the product is 2^64, which wraps to offset 0, so the first page is served again | the offset of page `p` is `(p - 1) * limit` rows, so a page far past the end is empty | not executed | `History.OverflowedOffsetRepeatsFirstPage` | `History.Offset` |
