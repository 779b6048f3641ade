/**
  The relay server's state (server.js): the user directory and message log of
  the persisted document, the set of online usernames, and for every connected
  socket the rooms it has joined and the username it authenticated as. Each
  socket handler is one atomic transition; everything it emits is returned as
  a `Delivery` naming the sockets that receive it, resolved when it is emitted.
 */
module Server {
  import opened Optional
  import opened Rooms
  import opened Messages

  type SocketId = nat

  /** A directory entry; `password` holds the bcrypt hash. */
  datatype User = User(username: string, password: string, email: string, avatar: string)

  /** An entry of the `allUsers` list sent on authentication. */
  datatype Contact = Contact(username: string, avatar: string)

  datatype AuthFailure = NameTaken | BadCredentials

  /** The events the server emits. */
  datatype Payload =
    | AuthError(reason: AuthFailure)
    | AuthSuccess(account: User, history: map<string, seq<Message>>, allUsers: seq<Contact>)
    | OnlineList(names: seq<string>)
    | UserUpdated(username: string, avatar: string)
    | ProfileSaved(profile: User)
    | RenderMessage(msg: Message)
    | UserTyping(user: string, room: string, isTyping: bool)

  datatype Delivery = Delivery(to: set<SocketId>, payload: Payload)

  /**
    `online` is the JavaScript `Set` of online usernames in insertion order,
    which is the order `Array.from` lists them in. `rooms` has one entry per
    connected socket; `names` holds `socketUsername` for sockets that
    authenticated.
   */
  datatype State = State(
    users: seq<User>,
    messages: map<string, seq<Message>>,
    online: seq<string>,
    rooms: map<SocketId, set<string>>,
    names: map<SocketId, string>)

  datatype Step = Step(state: State, out: seq<Delivery>)

  /** The default document and no connections. */
  const Initial: State := State([], map[General := [], Spam := []], [], map[], map[])

  predicate Distinct(xs: seq<string>)
  {
    forall i, j :: 0 <= i < j < |xs| ==> xs[i] != xs[j]
  }

  predicate UniqueNames(users: seq<User>)
  {
    forall i, j :: 0 <= i < j < |users| ==> users[i].username != users[j].username
  }

  /** Every logged message sits under its own room. */
  predicate LogsFiled(messages: map<string, seq<Message>>)
  {
    forall room :: room in messages ==> forall i :: 0 <= i < |messages[room]| ==> messages[room][i].room == room
  }

  /** What every reachable state satisfies. */
  predicate Valid(s: State)
  {
    UniqueNames(s.users) && Distinct(s.online) && s.names.Keys <= s.rooms.Keys && LogsFiled(s.messages)
  }

  /** `users.find(u => u.username === name)`, as the index of the first match. */
  function Find(users: seq<User>, name: string): (r: Option<nat>)
    ensures r.None? <==> forall j :: 0 <= j < |users| ==> users[j].username != name
    ensures r.Some? ==> r.value < |users| && users[r.value].username == name
    ensures r.Some? ==> forall j :: 0 <= j < r.value ==> users[j].username != name
  {
    if |users| == 0 then None
    else if users[0].username == name then Some(0)
    else
      var r := Find(users[1..], name);
      assert forall j :: 1 <= j < |users| ==> users[j] == users[1..][j - 1];
      if r.Some? then Some(r.value + 1) else None
  }

  /** In a directory without repeated names, the match is the only entry with that name. */
  lemma FindUnique(users: seq<User>, name: string, j: nat)
    requires UniqueNames(users)
    requires j < |users| && users[j].username == name
    ensures Find(users, name) == Some(j)
  {
  }

  /** Appending a user whose name is not in the directory keeps names unique. */
  lemma AppendKeepsUniqueNames(users: seq<User>, user: User)
    requires UniqueNames(users) && Find(users, user.username).None?
    ensures UniqueNames(users + [user])
  {
  }

  /** `io.to(room)`: the connected sockets that joined `room`. */
  function Subscribers(s: State, room: string): (to: set<SocketId>)
    ensures forall k :: k in to <==> k in s.rooms && room in s.rooms[k]
  {
    set k | k in s.rooms && room in s.rooms[k]
  }

  function Contacts(users: seq<User>): (r: seq<Contact>)
    ensures |r| == |users|
    ensures forall i :: 0 <= i < |users| ==> r[i] == Contact(users[i].username, users[i].avatar)
  {
    seq(|users|, i requires 0 <= i < |users| => Contact(users[i].username, users[i].avatar))
  }

  /** `onlineUsers.add(name)`: a new name goes last, a present one keeps its place. */
  function AddOnline(online: seq<string>, name: string): (r: seq<string>)
    ensures forall x :: x in r <==> x in online || x == name
    ensures name in online ==> r == online
    ensures name !in online ==> |r| == |online| + 1 && r[..|online|] == online && r[|online|] == name
    ensures Distinct(online) ==> Distinct(r)
  {
    if name in online then online else online + [name]
  }

  /** `onlineUsers.delete(name)`: the others keep their order. */
  function RemoveOnline(online: seq<string>, name: string): (r: seq<string>)
    ensures forall x :: x in r <==> x in online && x != name
    ensures |r| <= |online|
    ensures name !in online ==> r == online
    ensures Distinct(online) ==> Distinct(r)
  {
    if |online| == 0 then []
    else
      var init := online[..|online| - 1];
      var last := online[|online| - 1];
      assert online == init + [last];
      var r := RemoveOnline(init, name);
      assert Distinct(online) ==> Distinct(init) && last !in init by {
        if Distinct(online) {
          forall x | x in init ensures x != last {
            var i :| 0 <= i < |init| && init[i] == x;
            assert online[i] == x;
          }
        }
      }
      if last == name then r else r + [last]
  }

  /** The rooms `subscribeToAllRooms(name)` joins, one private room per other directory entry. */
  function RoomsToJoin(users: seq<User>, name: string): (r: set<string>)
    ensures General in r && Spam in r
    ensures forall i :: 0 <= i < |users| && users[i].username != name ==>
              PrivateRoomId(name, users[i].username) in r
    ensures forall room :: room in r ==>
              room == General || room == Spam ||
              exists i :: 0 <= i < |users| && users[i].username != name &&
                          room == PrivateRoomId(name, users[i].username)
    decreases |users|
  {
    if |users| == 0 then {General, Spam}
    else
      var init := users[..|users| - 1];
      var v := users[|users| - 1].username;
      var r := RoomsToJoin(init, name) + (if v != name then {PrivateRoomId(name, v)} else {});
      assert forall i :: 0 <= i < |init| ==> init[i] == users[i];
      r
  }

  /**
    Every room in `after` but not in `before` is one `subscribeToAllRooms(name)`
    joins: a fixed channel or the private room with another user of `users`.
   */
  predicate OnlyAuthRoomsAdded(before: set<string>, after: set<string>, users: seq<User>, name: string)
  {
    after <= before + RoomsToJoin(users, name)
  }

  /** The user's own entry in the directory contributes no room. */
  lemma RoomsToJoinWithoutSelf(users: seq<User>, self: User)
    ensures RoomsToJoin(users + [self], self.username) == RoomsToJoin(users, self.username)
  {
    assert (users + [self])[..|users|] == users;
  }

  /** `subscribeToAllRooms(name)` on socket `sock`. */
  function SubscribeToAllRooms(s: State, sock: SocketId, name: string): (r: State)
    requires sock in s.rooms
    ensures r.rooms.Keys == s.rooms.Keys
    ensures forall k :: k in s.rooms && k != sock ==> r.rooms[k] == s.rooms[k]
    ensures s.rooms[sock] <= r.rooms[sock]
    ensures General in r.rooms[sock] && Spam in r.rooms[sock]
    ensures forall i :: 0 <= i < |s.users| && s.users[i].username != name ==>
              PrivateRoomId(name, s.users[i].username) in r.rooms[sock]
    ensures OnlyAuthRoomsAdded(s.rooms[sock], r.rooms[sock], s.users, name)
    ensures r == s.(rooms := r.rooms)
  {
    s.(rooms := s.rooms[sock := s.rooms[sock] + RoomsToJoin(s.users, name)])
  }

  /** `setUserOnline(name)`: remember the name for this socket, add it to the online set, tell everybody. */
  function SetUserOnline(s: State, sock: SocketId, name: string): (r: Step)
    requires sock in s.rooms
    ensures forall x :: x in r.state.online <==> x in s.online || x == name
    ensures Distinct(s.online) ==> Distinct(r.state.online)
    ensures r.state.names == s.names[sock := name]
    ensures r.out == [Delivery(s.rooms.Keys, OnlineList(r.state.online))]
    ensures r.state == s.(online := r.state.online, names := r.state.names)
  {
    var s' := s.(names := s.names[sock := name], online := AddOnline(s.online, name));
    Step(s', [Delivery(s.rooms.Keys, OnlineList(s'.online))])
  }

  /**
    The two steps both successful authentications take: `setUserOnline(name)`
    and then `subscribeToAllRooms(name)`. Only presence, the socket's name and
    the socket's own rooms change.
   */
  function Authenticate(s: State, sock: SocketId, name: string): (r: Step)
    requires sock in s.rooms
    ensures r.state.users == s.users && r.state.messages == s.messages
    ensures forall x :: x in r.state.online <==> x in s.online || x == name
    ensures r.state.names == s.names[sock := name]
    ensures r.state.rooms.Keys == s.rooms.Keys
    ensures forall k :: k in s.rooms && k != sock ==> r.state.rooms[k] == s.rooms[k]
    ensures s.rooms[sock] <= r.state.rooms[sock]
    ensures General in r.state.rooms[sock] && Spam in r.state.rooms[sock]
    ensures forall j :: 0 <= j < |s.users| && s.users[j].username != name ==>
              PrivateRoomId(name, s.users[j].username) in r.state.rooms[sock]
    ensures OnlyAuthRoomsAdded(s.rooms[sock], r.state.rooms[sock], s.users, name)
    ensures r.out == [Delivery(s.rooms.Keys, OnlineList(r.state.online))]
    ensures Valid(s) ==> Valid(r.state)
  {
    var online := SetUserOnline(s, sock, name);
    Step(SubscribeToAllRooms(online.state, sock, name), online.out)
  }

  /** A new socket connection: no rooms, no name. */
  function Connect(s: State, sock: SocketId): (r: State)
    requires sock !in s.rooms
    ensures r.rooms == s.rooms[sock := {}]
    ensures Valid(s) ==> Valid(r)
  {
    s.(rooms := s.rooms[sock := {}])
  }

  /**
    `register`: a taken name is refused with nothing changed; otherwise the
    user is appended with an empty email and avatar, goes online, is
    subscribed, receives the history and the directory, and the other sockets
    learn about the new user.
   */
  function Register(s: State, sock: SocketId, name: string, hashed: string): (r: Step)
    requires sock in s.rooms
    ensures Find(s.users, name).Some? ==> r == Step(s, [Delivery({sock}, AuthError(NameTaken))])
    ensures Find(s.users, name).None? ==>
              && r.state.users == s.users + [User(name, hashed, "", "")]
              && r.state.messages == s.messages
              && (forall x :: x in r.state.online <==> x in s.online || x == name)
              && r.state.names == s.names[sock := name]
              && r.state.rooms.Keys == s.rooms.Keys
              && (forall k :: k in s.rooms && k != sock ==> r.state.rooms[k] == s.rooms[k])
              && s.rooms[sock] <= r.state.rooms[sock]
              && General in r.state.rooms[sock] && Spam in r.state.rooms[sock]
              && (forall i :: 0 <= i < |s.users| ==> PrivateRoomId(name, s.users[i].username) in r.state.rooms[sock])
              && OnlyAuthRoomsAdded(s.rooms[sock], r.state.rooms[sock], s.users, name)
              && |r.out| == 3
              && r.out[0] == Delivery(s.rooms.Keys, OnlineList(r.state.online))
              && r.out[1] == Delivery({sock}, AuthSuccess(User(name, hashed, "", ""), s.messages, Contacts(r.state.users)))
              && r.out[2] == Delivery(s.rooms.Keys - {sock}, UserUpdated(name, ""))
    ensures Valid(s) ==> Valid(r.state)
  {
    if Find(s.users, name).Some? then Step(s, [Delivery({sock}, AuthError(NameTaken))])
    else
      var user := User(name, hashed, "", "");
      // The directory entry is written before the subscription step, which
      // skips the user's own entry, so subscribing against the old directory
      // joins the same rooms.
      RoomsToJoinWithoutSelf(s.users, user);
      var auth := Authenticate(s, sock, name);
      var s2 := auth.state.(users := s.users + [user]);
      assert Valid(s) ==> Valid(s2) by {
        if Valid(s) {
          AppendKeepsUniqueNames(s.users, user);
        }
      }
      var welcome := Delivery({sock}, AuthSuccess(user, s.messages, Contacts(s2.users)));
      var announce := Delivery(s.rooms.Keys - {sock}, UserUpdated(name, user.avatar));
      var out := auth.out + [welcome, announce];
      assert |out| == 3 && out[1] == welcome && out[2] == announce;
      Step(s2, out)
  }

  /**
    `login`: with a known name and a password that `matches` the stored hash,
    the user goes online, is subscribed and receives the history; otherwise
    the socket gets an error and nothing changes. `matches` stands for
    `bcrypt.compare`.
   */
  function Login(s: State, sock: SocketId, name: string, password: string,
                 matches: (string, string) -> bool): (r: Step)
    requires sock in s.rooms
    ensures var i := Find(s.users, name);
      !(i.Some? && matches(password, s.users[i.value].password)) ==>
        r == Step(s, [Delivery({sock}, AuthError(BadCredentials))])
    ensures var i := Find(s.users, name);
      i.Some? && matches(password, s.users[i.value].password) ==>
        && r.state.users == s.users && r.state.messages == s.messages
        && (forall x :: x in r.state.online <==> x in s.online || x == name)
        && r.state.names == s.names[sock := name]
        && r.state.rooms.Keys == s.rooms.Keys
        && (forall k :: k in s.rooms && k != sock ==> r.state.rooms[k] == s.rooms[k])
        && s.rooms[sock] <= r.state.rooms[sock]
        && General in r.state.rooms[sock] && Spam in r.state.rooms[sock]
        && (forall j :: 0 <= j < |s.users| && s.users[j].username != name ==>
              PrivateRoomId(name, s.users[j].username) in r.state.rooms[sock])
        && OnlyAuthRoomsAdded(s.rooms[sock], r.state.rooms[sock], s.users, name)
        && |r.out| == 2
        && r.out[0] == Delivery(s.rooms.Keys, OnlineList(r.state.online))
        && r.out[1] == Delivery({sock}, AuthSuccess(s.users[i.value], s.messages, Contacts(s.users)))
    ensures Valid(s) ==> Valid(r.state)
  {
    var i := Find(s.users, name);
    if i.Some? && matches(password, s.users[i.value].password) then
      var user := s.users[i.value];
      var auth := Authenticate(s, sock, user.username);
      var welcome := Delivery({sock}, AuthSuccess(user, s.messages, Contacts(s.users)));
      var out := auth.out + [welcome];
      assert |out| == 2 && out[1] == welcome;
      Step(auth.state, out)
    else Step(s, [Delivery({sock}, AuthError(BadCredentials))])
  }

  /**
    `disconnect`: the socket leaves all its rooms; if it had authenticated
    under a non-empty name, that name leaves the online set and the remaining
    sockets get the new list.
   */
  function Disconnect(s: State, sock: SocketId): (r: Step)
    requires sock in s.rooms
    ensures r.state.rooms == s.rooms - {sock} && r.state.names == s.names - {sock}
    ensures r.state.users == s.users && r.state.messages == s.messages
    ensures sock in s.names && s.names[sock] != "" ==>
              && (forall x :: x in r.state.online <==> x in s.online && x != s.names[sock])
              && r.out == [Delivery(s.rooms.Keys - {sock}, OnlineList(r.state.online))]
    ensures !(sock in s.names && s.names[sock] != "") ==> r.state.online == s.online && r.out == []
    ensures Valid(s) ==> Valid(r.state)
  {
    var s1 := s.(rooms := s.rooms - {sock}, names := s.names - {sock});
    if sock in s.names && s.names[sock] != "" then
      var s2 := s1.(online := RemoveOnline(s.online, s.names[sock]));
      Step(s2, [Delivery(s1.rooms.Keys, OnlineList(s2.online))])
    else Step(s1, [])
  }

  /**
    `update profile`: the first user with the name gets the new email and
    avatar, a missing or empty value becoming `""`; the socket gets the saved
    profile and everybody the new avatar. An unknown name changes nothing.
    The message log is never touched.
   */
  function UpdateProfile(s: State, sock: SocketId, name: string,
                         email: Option<string>, avatar: Option<string>): (r: Step)
    requires sock in s.rooms
    ensures r.state.messages == s.messages
    ensures Find(s.users, name).None? ==> r == Step(s, [])
    ensures Find(s.users, name).Some? ==>
              var i := Find(s.users, name).value;
              && |r.state.users| == |s.users|
              && r.state.users[i] == User(name, s.users[i].password, email.OrElse(""), avatar.OrElse(""))
              && (forall j :: 0 <= j < |s.users| && j != i ==> r.state.users[j] == s.users[j])
              && r.out == [Delivery({sock}, ProfileSaved(r.state.users[i])),
                           Delivery(s.rooms.Keys, UserUpdated(name, avatar.OrElse("")))]
    ensures r.state == s.(users := r.state.users)
    ensures Valid(s) ==> Valid(r.state)
  {
    var i := Find(s.users, name);
    if i.None? then Step(s, [])
    else
      var user := s.users[i.value].(email := email.OrElse(""), avatar := avatar.OrElse(""));
      var s' := s.(users := s.users[i.value := user]);
      Step(s', [Delivery({sock}, ProfileSaved(user)), Delivery(s.rooms.Keys, UserUpdated(user.username, user.avatar))])
  }

  /** The message `new message` builds: the avatar is the sender's current one, or `""` for an unknown sender. */
  function Compose(s: State, user: string, text: string, room: string, id: int, time: string): (m: Message)
    ensures m.user == user && m.text == text && m.room == room && m.id == id && m.time == time
    ensures Find(s.users, user).None? ==> m.avatar == ""
    ensures forall j :: 0 <= j < |s.users| && s.users[j].username == user && UniqueNames(s.users) ==>
              m.avatar == s.users[j].avatar
  {
    var i := Find(s.users, user);
    Message(id, user, if i.Some? then s.users[i.value].avatar else "", text, time, room)
  }

  /**
    `new message`: append the composed message to its room's log (created if
    absent) and send it to every socket in the room, the sender included when
    it joined the room. `id` and `time` come from the clock.
   */
  function NewMessage(s: State, sock: SocketId, user: string, text: string, room: string,
                      id: int, time: string): (r: Step)
    requires sock in s.rooms
    ensures var m := Compose(s, user, text, room, id, time);
      && room in r.state.messages
      && r.state.messages[room] == (if room in s.messages then s.messages[room] else []) + [m]
      && r.out == [Delivery(Subscribers(s, room), RenderMessage(m))]
    ensures r.state.messages.Keys == s.messages.Keys + {room}
    ensures forall x :: x in s.messages && x != room ==> r.state.messages[x] == s.messages[x]
    ensures |r.out| == 1 && (sock in r.out[0].to <==> room in s.rooms[sock])
    ensures r.state == s.(messages := r.state.messages)
    ensures Valid(s) ==> Valid(r.state)
  {
    var m := Compose(s, user, text, room, id, time);
    var log := if room in s.messages then s.messages[room] else [];
    var s' := s.(messages := s.messages[room := log + [m]]);
    Step(s', [Delivery(Subscribers(s', room), RenderMessage(m))])
  }

  /** `join room`: the socket joins the announced room and leaves none. */
  function JoinRoom(s: State, sock: SocketId, oldRoom: string, newRoom: string): (r: State)
    requires sock in s.rooms
    ensures r.rooms.Keys == s.rooms.Keys
    ensures r.rooms[sock] == s.rooms[sock] + {newRoom}
    ensures forall k :: k in s.rooms && k != sock ==> r.rooms[k] == s.rooms[k]
    ensures r == s.(rooms := r.rooms)
    ensures Valid(s) ==> Valid(r)
  {
    s.(rooms := s.rooms[sock := s.rooms[sock] + {newRoom}])
  }

  /** `typing`: relay the event to the room's sockets except the sender; nothing is stored. */
  function Typing(s: State, sock: SocketId, user: string, room: string, isTyping: bool): (r: seq<Delivery>)
    ensures |r| == 1 && r[0].payload == UserTyping(user, room, isTyping)
    ensures forall k :: k in r[0].to <==> k in s.rooms && room in s.rooms[k] && k != sock
  {
    [Delivery(Subscribers(s, room) - {sock}, UserTyping(user, room, isTyping))]
  }

  /** One event on the server: a connection, or an event on a socket. */
  datatype Event =
    | Open(sock: SocketId)
    | SignUp(sock: SocketId, name: string, hashed: string)
    | SignIn(sock: SocketId, name: string, password: string)
    | Close(sock: SocketId)
    | EditProfile(sock: SocketId, name: string, email: Option<string>, avatar: Option<string>)
    | Post(sock: SocketId, user: string, text: string, room: string, id: int, time: string)
    | Join(sock: SocketId, oldRoom: string, newRoom: string)
    | TypingSignal(sock: SocketId, user: string, room: string, isTyping: bool)

  /** The state after one event; events for sockets that are not connected (or a reused id) do nothing. */
  function Apply(s: State, e: Event, matches: (string, string) -> bool): (r: State)
  {
    if e.Open? then (if e.sock in s.rooms then s else Connect(s, e.sock))
    else if e.sock !in s.rooms then s
    else
      match e
      case SignUp(sock, name, hashed) => Register(s, sock, name, hashed).state
      case SignIn(sock, name, password) => Login(s, sock, name, password, matches).state
      case Close(sock) => Disconnect(s, sock).state
      case EditProfile(sock, name, email, avatar) => UpdateProfile(s, sock, name, email, avatar).state
      case Post(sock, user, text, room, id, time) => NewMessage(s, sock, user, text, room, id, time).state
      case Join(sock, oldRoom, newRoom) => JoinRoom(s, sock, oldRoom, newRoom)
      case TypingSignal(_, _, _, _) => s
  }

  function Run(s: State, events: seq<Event>, matches: (string, string) -> bool): (r: State)
    decreases |events|
  {
    if |events| == 0 then s else Run(Apply(s, events[0], matches), events[1..], matches)
  }

  lemma {:induction false} RunKeepsValid(s: State, events: seq<Event>, matches: (string, string) -> bool)
    requires Valid(s)
    ensures Valid(Run(s, events, matches))
    decreases |events|
  {
    if |events| > 0 {
      RunKeepsValid(Apply(s, events[0], matches), events[1..], matches);
    }
  }

  /** From startup, usernames stay unique, the online list never repeats a name, and every message is filed under its room. */
  lemma ReachableValid(events: seq<Event>, matches: (string, string) -> bool)
    ensures var s := Run(Initial, events, matches);
      UniqueNames(s.users) && Distinct(s.online) && LogsFiled(s.messages)
  {
    RunKeepsValid(Initial, events, matches);
  }

  /** Each room's log only grows at its end. */
  predicate LogExtends(before: map<string, seq<Message>>, after: map<string, seq<Message>>)
  {
    forall room :: room in before ==> room in after && before[room] <= after[room]
  }

  /** A socket's subscriptions only grow while it stays connected. */
  predicate RoomsGrow(before: map<SocketId, set<string>>, after: map<SocketId, set<string>>)
  {
    forall k :: k in before && k in after ==> before[k] <= after[k]
  }

  lemma ApplyGrows(s: State, e: Event, matches: (string, string) -> bool)
    ensures var r := Apply(s, e, matches);
      LogExtends(s.messages, r.messages) && RoomsGrow(s.rooms, r.rooms)
      && (forall k :: k in s.rooms && !(e.Close? && e.sock == k) ==> k in r.rooms)
  {
  }

  lemma {:induction false} RunGrows(s: State, events: seq<Event>, matches: (string, string) -> bool)
    ensures LogExtends(s.messages, Run(s, events, matches).messages)
    decreases |events|
  {
    if |events| > 0 {
      ApplyGrows(s, events[0], matches);
      RunGrows(Apply(s, events[0], matches), events[1..], matches);
    }
  }

  /** A socket that is never closed keeps every room it has joined. */
  lemma {:induction false} SubscriptionsOnlyGrow(s: State, events: seq<Event>, matches: (string, string) -> bool,
                                                 k: SocketId)
    requires k in s.rooms
    requires forall i :: 0 <= i < |events| ==> events[i] != Close(k)
    ensures var r := Run(s, events, matches);
      k in r.rooms && s.rooms[k] <= r.rooms[k]
    decreases |events|
  {
    if |events| > 0 {
      var s1 := Apply(s, events[0], matches);
      ApplyGrows(s, events[0], matches);
      assert forall i :: 0 <= i < |events[1..]| ==> events[1..][i] == events[i + 1];
      SubscriptionsOnlyGrow(s1, events[1..], matches, k);
    }
  }

  /** While no socket disconnects, a room's audience only grows. */
  lemma SubscribersGrow(s: State, t: State, room: string)
    requires RoomsGrow(s.rooms, t.rooms) && s.rooms.Keys <= t.rooms.Keys
    ensures Subscribers(s, room) <= Subscribers(t, room)
  {
  }

  /** A socket that is never closed keeps receiving every room it has joined. */
  lemma StaysSubscribed(s: State, events: seq<Event>, matches: (string, string) -> bool,
                        k: SocketId, room: string)
    requires k in Subscribers(s, room)
    requires forall i :: 0 <= i < |events| ==> events[i] != Close(k)
    ensures k in Subscribers(Run(s, events, matches), room)
  {
    SubscriptionsOnlyGrow(s, events, matches, k);
  }

  /**
    A message stays where it was appended: later events, profile edits
    included, never change its avatar snapshot or any other field.
   */
  lemma LoggedMessagesPersist(s: State, events: seq<Event>, matches: (string, string) -> bool,
                              room: string, i: nat)
    requires room in s.messages && i < |s.messages[room]|
    ensures var r := Run(s, events, matches);
      room in r.messages && i < |r.messages[room]| && r.messages[room][i] == s.messages[room][i]
  {
    RunGrows(s, events, matches);
  }

  /**
    Two users who both log in while both are in the directory share their
    private room: a message there reaches both sockets, and a typing signal
    from one reaches the other but not the sender.
   */
  lemma PrivateRoomReachesBoth(s: State, sa: SocketId, sb: SocketId, a: string, b: string,
                               pa: string, pb: string, matches: (string, string) -> bool,
                               s1: State, s2: State, text: string, id: int, time: string)
    requires sa in s.rooms && sb in s.rooms && sa != sb && a != b
    requires Find(s.users, a).Some? && matches(pa, s.users[Find(s.users, a).value].password)
    requires Find(s.users, b).Some? && matches(pb, s.users[Find(s.users, b).value].password)
    requires s1 == Login(s, sa, a, pa, matches).state
    requires s2 == Login(s1, sb, b, pb, matches).state
    ensures sa in NewMessage(s2, sa, a, text, PrivateRoomId(a, b), id, time).out[0].to
    ensures sb in NewMessage(s2, sa, a, text, PrivateRoomId(a, b), id, time).out[0].to
    ensures sb in Typing(s2, sa, a, PrivateRoomId(a, b), true)[0].to
    ensures sa !in Typing(s2, sa, a, PrivateRoomId(a, b), true)[0].to
  {
    assert PrivateRoomId(a, b) in s1.rooms[sa];
    assert PrivateRoomId(b, a) in s2.rooms[sb];
    PrivateRoomIdSymmetric(a, b);
  }

  /**
    Subscriptions are fixed at authentication: a socket that logged in as `a`
    before `b` registered is not in their private room, so a message `b`
    sends there misses it.
   */
  lemma LateRegistrantNotSubscribed(s: State, sa: SocketId, sb: SocketId, a: string, pa: string,
                                    b: string, hashed: string, text: string, id: int, time: string,
                                    matches: (string, string) -> bool)
    requires sa in s.rooms && sb in s.rooms && sa != sb && s.rooms[sa] == {}
    requires Find(s.users, a).Some? && matches(pa, s.users[Find(s.users, a).value].password)
    requires Find(s.users, b).None?
    requires Separator !in a && Separator !in b
    requires forall i :: 0 <= i < |s.users| ==> Separator !in s.users[i].username
    ensures var s1 := Login(s, sa, a, pa, matches).state;
      var s2 := Register(s1, sb, b, hashed).state;
      && PrivateRoomId(a, b) !in s2.rooms[sa]
      && sa !in NewMessage(s2, sb, b, text, PrivateRoomId(b, a), id, time).out[0].to
  {
    var s1 := Login(s, sa, a, pa, matches).state;
    PrivateRoomNotJoined(s.users, a, b);
    assert s1.users == s.users && s1.rooms[sa] <= RoomsToJoin(s.users, a);
    var s2 := Register(s1, sb, b, hashed).state;
    assert s2.rooms[sa] == s1.rooms[sa];
    PrivateRoomIdSymmetric(a, b);
    assert NewMessage(s2, sb, b, text, PrivateRoomId(b, a), id, time).out[0].to == Subscribers(s2, PrivateRoomId(a, b));
  }

  /** Authenticating as `a` joins no private room with a name missing from the directory. */
  lemma PrivateRoomNotJoined(users: seq<User>, a: string, b: string)
    requires forall i :: 0 <= i < |users| ==> users[i].username != b
    requires Separator !in a && Separator !in b
    requires forall i :: 0 <= i < |users| ==> Separator !in users[i].username
    ensures PrivateRoomId(a, b) !in RoomsToJoin(users, a)
  {
    var room := PrivateRoomId(a, b);
    PrivateRoomIdHasSeparator(a, b);
    forall i | 0 <= i < |users| && users[i].username != a
      ensures room != PrivateRoomId(a, users[i].username)
    {
      if room == PrivateRoomId(a, users[i].username) {
        PrivateRoomIdInjective(a, b, a, users[i].username);
      }
    }
  }

  /** Presence is per name: closing one of two sockets of the same user takes the user offline. */
  lemma ClosingOneSocketHidesUser(s: State, k1: SocketId, k2: SocketId)
    requires k1 in s.rooms && k2 in s.rooms && k1 != k2
    requires k1 in s.names && k2 in s.names && s.names[k1] == s.names[k2] && s.names[k1] != ""
    ensures var r := Disconnect(s, k1).state;
      s.names[k1] !in r.online && k2 in r.rooms && k2 in r.names && r.names[k2] == s.names[k1]
  {
  }

  /** An empty username is falsy, so its socket's disconnect leaves it online. */
  lemma EmptyNameStaysOnline(s: State, k: SocketId)
    requires k in s.rooms && k in s.names && s.names[k] == "" && "" in s.online
    ensures "" in Disconnect(s, k).state.online
    ensures Disconnect(s, k).out == []
  {
  }

  /**
    The directory sent on the next authentication follows a profile edit: the
    edited user's entry carries the new avatar, every other entry and every
    name stay as they were.
   */
  lemma ContactsFollowEdit(s: State, sock: SocketId, name: string,
                           email: Option<string>, avatar: Option<string>)
    requires sock in s.rooms && Find(s.users, name).Some?
    ensures var i := Find(s.users, name).value;
      Contacts(UpdateProfile(s, sock, name, email, avatar).state.users)
        == Contacts(s.users)[i := Contact(name, avatar.OrElse(""))]
  {
    var i := Find(s.users, name).value;
    var a := Contacts(UpdateProfile(s, sock, name, email, avatar).state.users);
    var b := Contacts(s.users)[i := Contact(name, avatar.OrElse(""))];
    assert |a| == |b|;
    forall j | 0 <= j < |a| ensures a[j] == b[j] {}
  }

  /**
    A message keeps the avatar its sender had when it was posted: a later
    profile edit changes the directory entry but not the logged snapshot.
   */
  lemma AvatarSnapshotSurvivesEdit(s: State, sock: SocketId, name: string, text: string, room: string,
                                   id: int, time: string, email: Option<string>, avatar: Option<string>)
    requires sock in s.rooms && UniqueNames(s.users) && Find(s.users, name).Some?
    ensures var i := Find(s.users, name).value;
      var s1 := NewMessage(s, sock, name, text, room, id, time).state;
      var s2 := UpdateProfile(s1, sock, name, email, avatar).state;
      var log := s2.messages[room];
      && |log| > 0
      && log[|log| - 1].avatar == s.users[i].avatar
      && s2.users[i].avatar == avatar.OrElse("")
  {
  }
}
