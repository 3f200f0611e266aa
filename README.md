# Per-room bounded message history of a room-based chat relay

This project models the message history of a Socket.IO chat relay. The
history is `MessageStore` in `src/state.rs`. The server keeps one `RoomStore`:
a map from room id to a double-ended queue of `Message`s, newest first.

- `insert(message)` finds the entry for `message.room_id`, creating an empty
  one when the room has none. It pushes the message onto the front of that
  queue and then truncates the queue to 100 entries, so the oldest message
  falls off the back.
- `get(room_id)` copies the room's queue and returns it reversed, oldest
  first. A room with no entry reads as the empty sequence.

The model has three modules:

- `Sequences` (`sequences.dfy`): reversal, truncation to a prefix and the
  last-`n` suffix, with the lemmas that relate them.
- `State` (`state.dfy`): the `Message` and `RoomStore` types and the constant
  `Capacity` (100). The two operations are stated on values: `Inserted` and
  `History`. The class `MessageStore` holds the map in a field. Its `Insert`
  method updates the field in place, step by step as the source does. Its
  `Get` method reads the field without changing it. Both methods are proved
  against `Inserted` and `History`. `Valid()` is the cap invariant: every
  room holds at most 100 messages.
- `History` (`history.dfy`): a whole run of inserts and what a room reads
  afterwards. Every store operation is serialised by the lock, so a run is a
  sequence of inserts applied in order. Starting from the empty store, a read
  of room R returns exactly the last `min(N, 100)` of the N messages inserted
  into R, in insertion order. Inserts into other rooms leave R's entry as it
  was.

The source does not check that `room_id` is non-empty, so the model accepts
any string as a room id, the empty one included.

## Model

| member | source | states |
|---|---|---|
| `Sequences.Truncate` | src/state.rs:32 | truncating keeps a prefix of the queue whose length is the smaller of the old length and the limit |
| `Sequences.ReverseTruncate` | src/state.rs:32-37 | reversing the first `n` entries of a queue gives the last `n` entries of its reversal |
| `State.PushFront` | src/state.rs:31-32 | after push-front and truncate a room holds 1 to 100 messages: the new one, then the previous ones in order, as many as fit; below 100 nothing is dropped, and at 100 only the previous last (oldest) one is dropped |
| `State.Inserted` | src/state.rs:28-33 | insert adds the room's key if missing and keeps every other key; a new room holds exactly the one message; the new message is first in its room's entry; the entry holds at most 100; every other room's entry is unchanged; the cap invariant is preserved |
| `State.History` | src/state.rs:35-38 | a read of an unknown room is empty; otherwise it has the stored entry's length and holds its elements in reverse (oldest first); under the cap invariant it holds at most 100 |
| `State.HistoryAfterInsert` | src/state.rs:28-38 | a read right after an insert is the last 100 of the previous read followed by the new message, so the inserted message is the last element of the read |
| `State.HistoryOfOtherRoom` | src/state.rs:30 | an insert does not change what any other room reads, or whether that room has an entry |
| `State.HistoryReversesEntry` | src/state.rs:36-37 | reversing a read gives the stored entry back (empty for an unknown room) |
| `State.MessageStore.constructor` | src/state.rs:22-25 | the default store holds no rooms and satisfies the cap invariant |
| `State.MessageStore.Insert` | src/state.rs:28-33 | the new map is `Inserted` of the old one; keys gain only the message's room; the message is first in its room's entry, which holds at most 100; below 100 the entry becomes the message followed by the old entry, and at 100 the old last element is dropped; other rooms are unchanged; the cap invariant is kept |
| `State.MessageStore.Get` | src/state.rs:35-38 | returns `History` of the current map: empty for a room with no entry, otherwise the stored entry reversed; nothing is modified |
| `History.InsertAll` | src/state.rs:28-33 | a run of inserts keeps every existing key, gives every message's room an entry and preserves the cap invariant |
| `History.HistoryAfterInsertAll` | src/state.rs:28-38 | after a run of inserts a room reads the last 100 of its earlier read followed by the run's messages addressed to it, in order |
| `History.HistoryFromEmpty` | src/state.rs:22-38 | from the empty store, a room reads exactly the last `min(N, 100)` of the N messages inserted into it, in insertion order |
| `History.OtherRoomsUnchanged` | src/state.rs:30 | a room that no message of a run is addressed to keeps its entry, or its absence, exactly as before |
| `History.RoomMessagesOfOneRoom` | src/state.rs:30 | when every message of a run is addressed to one room, that room's messages are the whole run |
| `History.OverflowScenario` | src/state.rs:31-37 | after 105 inserts into one room from the empty store, the room reads messages 6 through 105 in order |

## Left out

- The `tokio::sync::RwLock` and `async`/`await` (src/state.rs:5, 24, 29, 36): the lock only serialises `insert` and `get`, so both are modelled as plain sequential operations. The model does not capture lock waiting or fairness.
- Timestamps (`chrono::DateTime<Utc>`, and `Utc::now()` in src/main.rs): the wall clock cannot be modelled. `Timestamp` is an opaque value that is carried but never inspected, and insertion order stands in for time order.
- `serde` serialisation of `Message` and the `Messages` wrapper (src/state.rs:7, 15-18): this is foreign library code, and `Messages` is only the payload shape of the history sent on join.
- src/main.rs as a whole: the `join`, `message`, `typing` and `stop typing` handlers are thin glue over `socketioxide`. Room membership (`leave_all`, `join`) and every emit are calls into that library, so there is no in-repository membership structure to model. The HTTP, CORS, listener and tracing setup is I/O plumbing.
- Direct access to the public `messages` field from outside `insert` and `get`: the model assumes the map changes only through `Insert`.
