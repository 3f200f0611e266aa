/**
 What a room reads after a whole run of inserts. Because every operation on
 the store is serialised, any run of the server is a sequence of inserts
 applied one after another; a read of room R then returns the last
 `Capacity` messages inserted into R, in the order they were inserted, and
 inserts into other rooms leave R alone.
 */
module History {
  import opened Sequences
  import opened State

  /** The store after inserting each message of `ms` in turn, first to last. */
  function InsertAll(store: RoomStore, ms: seq<Message>): (r: RoomStore)
    ensures store.Keys <= r.Keys
    ensures forall m :: m in ms ==> m.roomId in r
    ensures Bounded(store) ==> Bounded(r)
  {
    if ms == [] then store
    else Inserted(InsertAll(store, ms[..|ms| - 1]), ms[|ms| - 1])
  }

  /** The messages of `ms` addressed to `roomId`, in their order in `ms`. */
  function RoomMessages(ms: seq<Message>, roomId: string): (r: seq<Message>)
    ensures |r| <= |ms|
    ensures forall k :: 0 <= k < |r| ==> r[k].roomId == roomId && r[k] in ms
    ensures forall m :: m in ms && m.roomId == roomId ==> m in r
  {
    if ms == [] then []
    else
      var last := ms[|ms| - 1];
      RoomMessages(ms[..|ms| - 1], roomId) + (if last.roomId == roomId then [last] else [])
  }

  /**
   From any store in which the room holds at most `Capacity` messages, a read
   after the inserts `ms` gives the last `Capacity` of: what the room read
   before, followed by the messages of `ms` addressed to it.
   */
  lemma {:induction false} HistoryAfterInsertAll(store: RoomStore, ms: seq<Message>, roomId: string)
    requires |History(store, roomId)| <= Capacity
    ensures History(InsertAll(store, ms), roomId)
         == LastN(History(store, roomId) + RoomMessages(ms, roomId), Capacity)
  {
    var before := History(store, roomId);
    if ms == [] {
      assert before + RoomMessages(ms, roomId) == before;
    } else {
      var prefix, last := ms[..|ms| - 1], ms[|ms| - 1];
      HistoryAfterInsertAll(store, prefix, roomId);
      InsertAllStep(store, ms, roomId, before);
    }
  }

  /** The induction step of HistoryAfterInsertAll: one more insert at the end of the run. */
  lemma InsertAllStep(store: RoomStore, ms: seq<Message>, roomId: string, before: seq<Message>)
    requires ms != []
    requires History(InsertAll(store, ms[..|ms| - 1]), roomId)
          == LastN(before + RoomMessages(ms[..|ms| - 1], roomId), Capacity)
    ensures History(InsertAll(store, ms), roomId)
         == LastN(before + RoomMessages(ms, roomId), Capacity)
  {
    var prefix, last := ms[..|ms| - 1], ms[|ms| - 1];
    var previous := InsertAll(store, prefix);
    var earlier := RoomMessages(prefix, roomId);
    assert InsertAll(store, ms) == Inserted(previous, last);
    if last.roomId == roomId {
      assert RoomMessages(ms, roomId) == earlier + [last];
      calc {
        History(Inserted(previous, last), roomId);
        { HistoryAfterInsert(previous, last); }
        LastN(History(previous, roomId) + [last], Capacity);
        LastN(LastN(before + earlier, Capacity) + [last], Capacity);
        { LastNSnoc(before + earlier, last, Capacity); }
        LastN(before + earlier + [last], Capacity);
        { assert before + earlier + [last] == before + (earlier + [last]); }
        LastN(before + RoomMessages(ms, roomId), Capacity);
      }
    } else {
      calc {
        History(Inserted(previous, last), roomId);
        { HistoryOfOtherRoom(previous, last, roomId); }
        History(previous, roomId);
        { assert RoomMessages(ms, roomId) == earlier; }
        LastN(before + RoomMessages(ms, roomId), Capacity);
      }
    }
  }

  /**
   The end-to-end property: starting from the empty store, after any run of
   inserts a read of a room returns exactly the last `Min(N, Capacity)` of the
   N messages inserted into that room, oldest first.
   */
  lemma HistoryFromEmpty(ms: seq<Message>, roomId: string)
    ensures History(InsertAll(map[], ms), roomId) == LastN(RoomMessages(ms, roomId), Capacity)
    ensures |History(InsertAll(map[], ms), roomId)| == Min(|RoomMessages(ms, roomId)|, Capacity)
  {
    HistoryAfterInsertAll(map[], ms, roomId);
    assert [] + RoomMessages(ms, roomId) == RoomMessages(ms, roomId);
  }

  /**
   A room no message of `ms` is addressed to keeps its entry, or its absence,
   exactly as it was.
   */
  lemma {:induction false} OtherRoomsUnchanged(store: RoomStore, ms: seq<Message>, roomId: string)
    requires forall m :: m in ms ==> m.roomId != roomId
    ensures roomId in InsertAll(store, ms) <==> roomId in store
    ensures roomId in store ==> InsertAll(store, ms)[roomId] == store[roomId]
  {
    if ms != [] {
      var prefix := ms[..|ms| - 1];
      assert forall m :: m in prefix ==> m in ms;
      OtherRoomsUnchanged(store, prefix, roomId);
    }
  }

  /** When every message is addressed to one room, that room receives all of them. */
  lemma {:induction false} RoomMessagesOfOneRoom(ms: seq<Message>, roomId: string)
    requires forall k :: 0 <= k < |ms| ==> ms[k].roomId == roomId
    ensures RoomMessages(ms, roomId) == ms
  {
    if ms != [] {
      RoomMessagesOfOneRoom(ms[..|ms| - 1], roomId);
      assert ms[..|ms| - 1] + [ms[|ms| - 1]] == ms;
    }
  }

  /**
   One client sends 105 messages to a room that nobody else uses: a later
   read returns 100 of them, the sixth through the hundred-and-fifth, in the
   order they were sent.
   */
  lemma OverflowScenario(ms: seq<Message>, roomId: string)
    requires |ms| == 105
    requires forall k :: 0 <= k < |ms| ==> ms[k].roomId == roomId
    ensures History(InsertAll(map[], ms), roomId) == ms[5..]
  {
    RoomMessagesOfOneRoom(ms, roomId);
    HistoryFromEmpty(ms, roomId);
  }
}
