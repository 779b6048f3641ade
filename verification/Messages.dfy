/**
  The message record the server builds (server.js:114-121) and both sides keep
  in per-room sequences, with the id and room queries the client's cache uses.
 */
module Messages {

  /** `id` comes from the server clock and is not guaranteed unique; `time` is preformatted. */
  datatype Message = Message(id: int, user: string, avatar: string, text: string, time: string, room: string)

  /** `log.some(m => m.id === id)`. */
  predicate HasId(log: seq<Message>, id: int)
  {
    exists i :: 0 <= i < |log| && log[i].id == id
  }

  predicate DistinctIds(log: seq<Message>)
  {
    forall i, j :: 0 <= i < j < |log| ==> log[i].id != log[j].id
  }

  /** The messages of `log` that belong to `room`, in log order. */
  function InRoom(log: seq<Message>, room: string): (r: seq<Message>)
    ensures |r| <= |log|
    ensures forall m :: m in r <==> m in log && m.room == room
  {
    if |log| == 0 then []
    else
      var last := log[|log| - 1];
      var init := log[..|log| - 1];
      assert log == init + [last];
      InRoom(init, room) + (if last.room == room then [last] else [])
  }

  lemma InRoomAppend(log: seq<Message>, m: Message, room: string)
    ensures InRoom(log + [m], room) == InRoom(log, room) + (if m.room == room then [m] else [])
  {
    assert (log + [m])[..|log|] == log;
  }

  /** A log whose messages all belong to `room` is unchanged by filtering on `room`. */
  lemma {:induction false} InRoomAll(log: seq<Message>, room: string)
    requires forall i :: 0 <= i < |log| ==> log[i].room == room
    ensures InRoom(log, room) == log
  {
    if |log| > 0 {
      InRoomAll(log[..|log| - 1], room);
      assert log == log[..|log| - 1] + [log[|log| - 1]];
    }
  }
}
