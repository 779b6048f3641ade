/**
  Server fan-out and client reconciliation together: a message posted to the
  broadcast channel reaches every socket in it, and a client reading that
  channel caches and draws it once.
 */
module Relay {
  import opened Optional
  import opened Rooms
  import opened Messages
  import Server
  import Client

  lemma BroadcastRendersOnce(s: Server.State, sa: Server.SocketId, sb: Server.SocketId, a: string,
                             text: string, id: int, time: string, cb: Client.State)
    requires sa in s.rooms && sb in s.rooms
    requires General in s.rooms[sa] && General in s.rooms[sb]
    requires cb.currentRoom == General && Client.ViewConsistent(cb)
    requires Client.CachesDistinct(cb)
    requires !HasId(Client.Cached(cb, General), id)
    ensures var step := Server.NewMessage(s, sa, a, text, General, id, time);
      var m := step.out[0].payload.msg;
      var cb' := Client.RenderMessage(cb, m);
      && sa in step.out[0].to && sb in step.out[0].to
      && m.user == a && m.text == text && m.id == id && m.room == General
      && Client.Cached(cb', General) == Client.Cached(cb, General) + [m]
      && cb'.view == cb.view + [m]
      && Client.ViewConsistent(cb')
      && Client.CachesDistinct(cb')
      && Client.Unread(cb', General) == Client.Unread(cb, General)
  {
    var step := Server.NewMessage(s, sa, a, text, General, id, time);
    var m := step.out[0].payload.msg;
    Client.RenderViewConsistency(cb, m);
    Client.RenderKeepsDistinct(cb, m);
  }

  /**
    After a successful login the client opens the broadcast channel showing
    exactly the server's log for it.
   */
  lemma LoginShowsGeneralHistory(s: Server.State, sock: Server.SocketId, name: string, password: string,
                                 matches: (string, string) -> bool, c: Client.State)
    requires Server.Valid(s) && sock in s.rooms
    requires Server.Find(s.users, name).Some?
    requires matches(password, s.users[Server.Find(s.users, name).value].password)
    ensures var sent := Server.Login(s, sock, name, password, matches).out[1];
      var c' := Client.AuthSuccess(c, sent.payload.account.username, Some(sent.payload.history)).state;
      && sock in sent.to
      && c'.currentUser == Some(name)
      && c'.currentRoom == General
      && c'.view == (if General in s.messages then s.messages[General] else [])
      && Client.Unread(c', General) == 0
  {
    if General in s.messages {
      InRoomAll(s.messages[General], General);
    }
  }
}
