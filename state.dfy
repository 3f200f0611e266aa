/**
 The per-room bounded message history of the chat relay.

 A `RoomStore` maps a room id to the room's messages, newest first. Inserting
 a message pushes it onto the front of its room's sequence (creating the entry
 when the room has none) and then keeps only the first `Capacity` entries, so
 the oldest one falls off the back. Reading a room gives its messages oldest
 first, and an unknown room reads as empty.

 `Inserted` and `History` state both operations on values; the class
 `MessageStore` holds the map and updates it in place, and its methods are
 proved against those two functions.
 */
module State {
  import opened Sequences

  /** Most messages kept per room; the oldest beyond this are dropped. */
  const Capacity: nat := 100

  /**
   The server-side receipt time of a message. It is carried around but never
   inspected: insertion order stands in for time order.
   */
  datatype Timestamp = Instant(value: int)

  datatype Message = Message(roomId: string, userId: string, text: string, timestamp: Timestamp)

  /** Room id to that room's messages, most recently inserted first. */
  type RoomStore = map<string, seq<Message>>

  /** The room's stored sequence, or the empty one when the room has no entry. */
  function Entry(store: RoomStore, roomId: string): seq<Message>
  {
    if roomId in store then store[roomId] else []
  }

  /** Every room holds at most `Capacity` messages. */
  ghost predicate Bounded(store: RoomStore)
  {
    forall roomId :: roomId in store ==> |store[roomId]| <= Capacity
  }

  /**
   One room's sequence after `push_front(message)` and `truncate(Capacity)`:
   the new message, then the previous messages in their order, as many of them
   as still fit.
   */
  function PushFront(queue: seq<Message>, message: Message): (r: seq<Message>)
    ensures 1 <= |r| <= Capacity
    ensures r == [message] + queue[..Min(|queue|, Capacity - 1)]
    ensures |queue| < Capacity ==> r == [message] + queue
    ensures |queue| == Capacity ==> r == [message] + queue[..|queue| - 1]
  {
    Truncate([message] + queue, Capacity)
  }

  /** The store after inserting `message` into the room named by `message.roomId`. */
  function Inserted(store: RoomStore, message: Message): (r: RoomStore)
    ensures r.Keys == store.Keys + {message.roomId}
    ensures message.roomId !in store ==> r[message.roomId] == [message]
    ensures 1 <= |r[message.roomId]| <= Capacity && r[message.roomId][0] == message
    ensures forall roomId :: roomId in store && roomId != message.roomId ==> r[roomId] == store[roomId]
    ensures Bounded(store) ==> Bounded(r)
  {
    store[message.roomId := PushFront(Entry(store, message.roomId), message)]
  }

  /**
   What a read of `roomId` returns: the room's stored sequence in the opposite
   order (oldest first), or the empty sequence for a room with no entry.
   */
  function History(store: RoomStore, roomId: string): (r: seq<Message>)
    ensures roomId !in store ==> r == []
    ensures roomId in store ==> |r| == |store[roomId]|
    ensures roomId in store ==> forall k :: 0 <= k < |r| ==> r[k] == store[roomId][|r| - 1 - k]
    ensures Bounded(store) ==> |r| <= Capacity
  {
    ReverseIndexes(Entry(store, roomId));
    Reverse(Entry(store, roomId))
  }

  /**
   Reading a room right after inserting into it: the new message comes last,
   after the last `Capacity - 1` messages the room held before.
   */
  lemma HistoryAfterInsert(store: RoomStore, message: Message)
    ensures History(Inserted(store, message), message.roomId)
         == LastN(History(store, message.roomId) + [message], Capacity)
    ensures var h := History(Inserted(store, message), message.roomId);
            |h| > 0 && h[|h| - 1] == message
  {
    var queue := Entry(store, message.roomId);
    ReverseTruncate([message] + queue, Capacity);
    ReverseCons(message, queue);
  }

  /** Inserting into one room does not change what any other room reads. */
  lemma HistoryOfOtherRoom(store: RoomStore, message: Message, roomId: string)
    requires roomId != message.roomId
    ensures History(Inserted(store, message), roomId) == History(store, roomId)
    ensures roomId in Inserted(store, message) <==> roomId in store
  {
  }

  /** Reading is the inverse of the stored order: reversing a read gives the entry back. */
  lemma HistoryReversesEntry(store: RoomStore, roomId: string)
    ensures Reverse(History(store, roomId)) == Entry(store, roomId)
  {
    ReverseReverse(Entry(store, roomId));
  }

  /**
   The process-wide message store. `messages` is the map that the source guards
   with a reader/writer lock; the lock only serialises the operations, so they
   are modelled as plain sequential updates and reads of the field.
   */
  class MessageStore {
    var messages: RoomStore

    ghost predicate Valid()
      reads this
    {
      Bounded(messages)
    }

    /** The store every process starts with: no rooms at all. */
    constructor ()
      ensures messages == map[]
      ensures Valid()
    {
      messages := map[];
    }

    /**
     Pushes `message` onto the front of its room's sequence, creating the entry
     when the room has none, then truncates that sequence to `Capacity`.
     */
    method Insert(message: Message)
      modifies this
      ensures messages == Inserted(old(messages), message)
      ensures messages.Keys == old(messages).Keys + {message.roomId}
      ensures messages[message.roomId][0] == message
      ensures |messages[message.roomId]| <= Capacity
      ensures old(|Entry(messages, message.roomId)|) < Capacity ==>
                messages[message.roomId] == [message] + old(Entry(messages, message.roomId))
      ensures old(|Entry(messages, message.roomId)|) == Capacity ==>
                messages[message.roomId] == [message] + old(Entry(messages, message.roomId))[..Capacity - 1]
      ensures forall roomId :: roomId in old(messages) && roomId != message.roomId ==>
                messages[roomId] == old(messages)[roomId]
      ensures old(Valid()) ==> Valid()
    {
      var roomId := message.roomId;
      var queue := if roomId in messages then messages[roomId] else [];
      queue := [message] + queue;
      if |queue| > Capacity {
        queue := queue[..Capacity];
      }
      messages := messages[roomId := queue];
    }

    /**
     Copies the room's sequence and returns it reversed (oldest first); a room
     with no entry gives the empty sequence. The store is not changed.
     */
    method Get(roomId: string) returns (r: seq<Message>)
      ensures r == History(messages, roomId)
      ensures roomId !in messages ==> r == []
      ensures Reverse(r) == Entry(messages, roomId)
    {
      var queue := if roomId in messages then messages[roomId] else [];
      r := Reverse(queue);
      ReverseReverse(queue);
    }
  }
}
