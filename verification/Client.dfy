/**
  The browser client's cache and notification reconciler (client.js). Every
  socket handler and UI action is one pure transition on `State`; messages the
  client sends to the server are returned as `Emit` values. The DOM is reduced
  to what the handlers decide: the list of messages rendered for the focused
  room (`view`), the typing indicator, and the badge predicate.
 */
module Client {
  import opened Optional
  import opened Rooms
  import opened Text
  import opened Messages

  /** Events the client sends to the server. */
  datatype Emit =
    | JoinRoom(oldRoom: string, newRoom: string)
    | NewMessage(user: string, text: string, room: string)
    | Typing(user: string, room: string, isTyping: bool)

  /**
    `currentUser` is the logged-in username, `allMessages` the per-room cache,
    `view` the messages rendered in the open conversation, and `typing` the
    author the typing indicator names (None when its text is empty).
   */
  datatype State = State(
    currentUser: Option<string>,
    currentRoom: string,
    allMessages: map<string, seq<Message>>,
    unreadCounts: map<string, nat>,
    view: seq<Message>,
    typing: Option<string>)

  datatype Step = Step(state: State, emits: seq<Emit>)

  /** The page as loaded: nobody logged in, focused on the broadcast channel, nothing cached. */
  const Initial: State := State(None, General, map[], map[], [], None)

  /** `unreadCounts[room] || 0`. */
  function Unread(s: State, room: string): (n: nat)
  {
    if room in s.unreadCounts then s.unreadCounts[room] else 0
  }

  /** The cached messages of `room`, empty when the room has no entry. */
  function Cached(s: State, room: string): (log: seq<Message>)
  {
    if room in s.allMessages then s.allMessages[room] else []
  }

  /** The badge rule of `updateUnreadUI`: unread messages exist and the room is not the open one. */
  predicate BadgeShown(s: State, room: string)
  {
    room in s.unreadCounts && s.unreadCounts[room] > 0 && room != s.currentRoom
  }

  /** The open view shows exactly the focused room's cached messages. */
  predicate ViewConsistent(s: State)
  {
    s.view == InRoom(Cached(s, s.currentRoom), s.currentRoom)
  }

  /** The focused room never has unread messages. */
  predicate FocusedRead(s: State)
  {
    Unread(s, s.currentRoom) == 0
  }

  predicate CachesDistinct(s: State)
  {
    forall room :: room in s.allMessages ==> DistinctIds(s.allMessages[room])
  }

  /**
    `switchRoom(target, isPrivate)`: announce the focus change, focus the room
    (the private key with the logged-in user when `isPrivate`), mark it read,
    clear the typing indicator and redraw the view from the cache. A private
    switch with nobody logged in throws on `currentUser.username` before any
    effect, so nothing changes.
   */
  function SwitchRoom(s: State, target: string, isPrivate: bool): (r: Step)
    ensures isPrivate && s.currentUser.None? ==> r == Step(s, [])
    ensures !isPrivate ==> r.state.currentRoom == target
    ensures isPrivate && s.currentUser.Some? ==>
              r.state.currentRoom == PrivateRoomId(s.currentUser.value, target)
    ensures !isPrivate || s.currentUser.Some? ==>
              var room := r.state.currentRoom;
              && r.emits == [JoinRoom(s.currentRoom, room)]
              && room in r.state.unreadCounts && r.state.unreadCounts[room] == 0
              && r.state.unreadCounts.Keys == s.unreadCounts.Keys + {room}
              && (forall x :: x != room ==> Unread(r.state, x) == Unread(s, x))
              && r.state.view == InRoom(Cached(s, room), room)
              && r.state.typing == None
              && r.state.allMessages == s.allMessages
              && r.state.currentUser == s.currentUser
    ensures FocusedRead(r.state) || r.state == s
    ensures ViewConsistent(r.state) || r.state == s
  {
    if isPrivate && s.currentUser.None? then Step(s, [])
    else
      var room := if isPrivate then PrivateRoomId(s.currentUser.value, target) else target;
      var s' := s.(currentRoom := room,
                   unreadCounts := s.unreadCounts[room := 0],
                   typing := None,
                   view := InRoom(Cached(s, room), room));
      Step(s', [JoinRoom(s.currentRoom, room)])
  }

  /**
    The `auth success` handler: remember the user, replace the cache with the
    server's history (or nothing), then switch to the broadcast channel.
    Unread counts survive a second login.
   */
  function AuthSuccess(s: State, user: string, history: Option<map<string, seq<Message>>>): (r: Step)
    ensures r.state.currentUser == Some(user)
    ensures r.state.allMessages == history.OrElse(map[])
    ensures r.state.currentRoom == General
    ensures r.emits == [JoinRoom(s.currentRoom, General)]
    ensures Unread(r.state, General) == 0
    ensures forall x :: x != General ==> Unread(r.state, x) == Unread(s, x)
    ensures General in r.state.allMessages ==> r.state.view == InRoom(r.state.allMessages[General], General)
    ensures General !in r.state.allMessages ==> r.state.view == []
    ensures r.state.typing == None
  {
    var s1 := s.(currentUser := Some(user), allMessages := history.OrElse(map[]));
    SwitchRoom(s1, General, false)
  }

  /**
    The `render message` handler: cache the message unless the room's cache
    already has its id, then either draw it (focused room) or count it unread.
    A duplicate is still drawn or counted.
   */
  function RenderMessage(s: State, msg: Message): (r: State)
    ensures HasId(Cached(s, msg.room), msg.id) ==> Cached(r, msg.room) == Cached(s, msg.room)
    ensures !HasId(Cached(s, msg.room), msg.id) ==> Cached(r, msg.room) == Cached(s, msg.room) + [msg]
    ensures HasId(Cached(r, msg.room), msg.id)
    ensures r.allMessages.Keys == s.allMessages.Keys + {msg.room}
    ensures forall room :: room != msg.room ==> Cached(r, room) == Cached(s, room)
    ensures msg.room != s.currentRoom ==>
              Unread(r, msg.room) == Unread(s, msg.room) + 1 && r.view == s.view
    ensures msg.room == s.currentRoom ==> r.unreadCounts == s.unreadCounts && r.view == s.view + [msg]
    ensures forall room :: room != msg.room ==> Unread(r, room) == Unread(s, room)
    ensures r.currentRoom == s.currentRoom && r.currentUser == s.currentUser && r.typing == s.typing
  {
    var cache := Cached(s, msg.room);
    var cache' := if HasId(cache, msg.id) then cache else cache + [msg];
    assert cache'[|cache'| - 1] == msg || HasId(cache, msg.id);
    var s1 := s.(allMessages := s.allMessages[msg.room := cache']);
    if msg.room == s.currentRoom then s1.(view := s.view + [msg])
    else s1.(unreadCounts := s.unreadCounts[msg.room := Unread(s, msg.room) + 1])
  }

  /**
    The `user typing` handler: for the focused room, show the author while
    they type and clear the indicator when they stop; ignore other rooms.
   */
  function UserTyping(s: State, user: string, room: string, isTyping: bool): (r: State)
    ensures room == s.currentRoom && isTyping ==> r.typing == Some(user)
    ensures room == s.currentRoom && !isTyping ==> r.typing == None
    ensures room != s.currentRoom ==> r == s
    ensures r.(typing := s.typing) == s
  {
    if isTyping && room == s.currentRoom then s.(typing := Some(user))
    else if room == s.currentRoom then s.(typing := None)
    else s
  }

  /** What `send` emits and the value it leaves in the input box. */
  datatype SendResult = SendResult(emits: seq<Emit>, input: string)

  /**
    `send()`: with a user logged in and an input that is not all whitespace,
    post the trimmed text to the focused room, clear the input and announce
    that typing stopped; otherwise do nothing.
   */
  function Send(s: State, input: string): (r: SendResult)
    ensures r.emits != [] <==> s.currentUser.Some? && !AllSpace(input)
    ensures r.emits == [] ==> r.input == input
    ensures r.emits != [] ==>
              && r.input == ""
              && r.emits == [NewMessage(s.currentUser.value, Trim(input), s.currentRoom),
                             Typing(s.currentUser.value, s.currentRoom, false)]
              && |Trim(input)| > 0
              && Framed(input, Trim(input), LeadingSpace(input))
  {
    var text := Trim(input);
    if |text| > 0 && s.currentUser.Some? then
      var user := s.currentUser.value;
      SendResult([NewMessage(user, text, s.currentRoom), Typing(user, s.currentRoom, false)], "")
    else SendResult([], input)
  }

  /** One client-side event: a UI action or a server event. */
  datatype Event =
    | Switch(target: string, isPrivate: bool)
    | Deliver(msg: Message)
    | AuthOk(user: string, history: Option<map<string, seq<Message>>>)
    | PeerTyping(user: string, room: string, isTyping: bool)
    | Submit(input: string)

  function Apply(s: State, e: Event): (r: State)
  {
    match e
    case Switch(target, isPrivate) => SwitchRoom(s, target, isPrivate).state
    case Deliver(msg) => RenderMessage(s, msg)
    case AuthOk(user, history) => AuthSuccess(s, user, history).state
    case PeerTyping(user, room, isTyping) => UserTyping(s, user, room, isTyping)
    case Submit(input) => s
  }

  function Run(s: State, events: seq<Event>): (r: State)
    decreases |events|
  {
    if |events| == 0 then s else Run(Apply(s, events[0]), events[1..])
  }

  /** Every event keeps the focused room read. */
  lemma ApplyKeepsFocusedRead(s: State, e: Event)
    requires FocusedRead(s)
    ensures FocusedRead(Apply(s, e))
  {
  }

  lemma {:induction false} RunKeepsFocusedRead(s: State, events: seq<Event>)
    requires FocusedRead(s)
    ensures FocusedRead(Run(s, events))
    decreases |events|
  {
    if |events| > 0 {
      ApplyKeepsFocusedRead(s, events[0]);
      RunKeepsFocusedRead(Apply(s, events[0]), events[1..]);
    }
  }

  /** From page load, whatever happens, the open room's unread count is 0 or absent. */
  lemma FocusedRoomNeverUnread(events: seq<Event>)
    ensures var s := Run(Initial, events);
      s.currentRoom !in s.unreadCounts || s.unreadCounts[s.currentRoom] == 0
  {
    RunKeepsFocusedRead(Initial, events);
  }

  /** While the focused room is read, a badge shows exactly for the rooms with unread messages. */
  lemma BadgeMeansUnread(s: State, room: string)
    requires FocusedRead(s)
    ensures BadgeShown(s, room) <==> Unread(s, room) > 0
  {
  }

  /** Right after a switch the new room has no badge, whatever its count was. */
  lemma NoBadgeAfterSwitch(s: State, target: string, isPrivate: bool)
    requires !isPrivate || s.currentUser.Some?
    ensures var r := SwitchRoom(s, target, isPrivate).state;
      !BadgeShown(r, r.currentRoom) && Unread(r, r.currentRoom) == 0
  {
  }

  /** Delivering the same message twice caches it once but counts it twice. */
  lemma DuplicateDelivery(s: State, msg: Message)
    requires msg.room != s.currentRoom
    ensures var twice := RenderMessage(RenderMessage(s, msg), msg);
      && Cached(twice, msg.room) == Cached(RenderMessage(s, msg), msg.room)
      && Unread(twice, msg.room) == Unread(s, msg.room) + 2
  {
  }

  /** Caching a message keeps the ids of every room's cache pairwise distinct. */
  lemma RenderKeepsDistinct(s: State, msg: Message)
    requires CachesDistinct(s)
    ensures CachesDistinct(RenderMessage(s, msg))
  {
    var r := RenderMessage(s, msg);
    var old_ := Cached(s, msg.room);
    assert DistinctIds(old_) by { if msg.room in s.allMessages { } }
    if !HasId(old_, msg.id) {
      var c := old_ + [msg];
      forall i, j | 0 <= i < j < |c| ensures c[i].id != c[j].id {
        if j == |c| - 1 {
          assert c[i] == old_[i];
        }
      }
    }
    forall room | room in r.allMessages ensures DistinctIds(r.allMessages[room]) {
      assert r.allMessages[room] == Cached(r, room);
      if room != msg.room {
        assert Cached(s, room) == s.allMessages[room];
      }
    }
  }

  /** Every event except a login with a history that repeats ids keeps the caches duplicate-free. */
  lemma ApplyKeepsDistinct(s: State, e: Event)
    requires CachesDistinct(s)
    requires e.AuthOk? && e.history.Some? ==>
               forall room :: room in e.history.value ==> DistinctIds(e.history.value[room])
    ensures CachesDistinct(Apply(s, e))
  {
    if e.Deliver? {
      RenderKeepsDistinct(s, e.msg);
    }
  }

  /**
    Drawing a message keeps the view equal to the focused room's cache exactly
    when it is not a repeat of a cached id in the focused room: a repeat is
    drawn a second time although the cache keeps one copy.
   */
  lemma RenderViewConsistency(s: State, msg: Message)
    requires ViewConsistent(s)
    ensures ViewConsistent(RenderMessage(s, msg)) <==>
              !(msg.room == s.currentRoom && HasId(Cached(s, msg.room), msg.id))
  {
    var r := RenderMessage(s, msg);
    var room := s.currentRoom;
    if msg.room == room {
      if HasId(Cached(s, room), msg.id) {
        assert |r.view| == |s.view| + 1;
        assert |InRoom(Cached(r, room), room)| == |s.view|;
      } else {
        InRoomAppend(Cached(s, room), msg, room);
      }
    }
  }

  /**
    What a contact click passes as its target: the roster the server sends
    holds `{username, avatar}` objects, and an object turns into this text
    when the room key is built from it.
   */
  const ObjectText: string := "[object Object]"

  /**
    A click on any contact opens the room keyed by `ObjectText`, never the
    private room with that contact, so the conversation a peer writes into
    cannot be reached from the roster.
   */
  lemma ContactClickMissesPrivateRoom(s: State, me: string, other: string)
    requires s.currentUser == Some(me)
    requires Separator !in me && Separator !in other && other != ObjectText
    ensures SwitchRoom(s, ObjectText, true).state.currentRoom != PrivateRoomId(me, other)
  {
    assert Separator !in ObjectText;
    if PrivateRoomId(me, ObjectText) == PrivateRoomId(me, other) {
      PrivateRoomIdInjective(me, ObjectText, me, other);
    }
  }

  /**
    A private message arriving while the recipient reads the broadcast channel
    raises the private room's count to 1 and badges the sender's contact; the
    switch to that conversation clears the count and draws the message.
   */
  lemma PrivateMessageWhileAway(s: State, me: string, other: string, msg: Message)
    requires s.currentUser == Some(me) && s.currentRoom == General
    requires me != other && Separator !in me && Separator !in other
    requires msg.room == PrivateRoomId(other, me)
    requires Unread(s, msg.room) == 0
    requires !HasId(Cached(s, msg.room), msg.id)
    ensures var s1 := RenderMessage(s, msg);
      && Unread(s1, msg.room) == 1
      && BadgeShown(s1, msg.room)
      && BadgeTarget(msg.room, Some(me)) == Some(other)
      && s1.view == s.view
      && var s2 := SwitchRoom(s1, other, true).state;
         && s2.currentRoom == msg.room
         && Unread(s2, msg.room) == 0
         && !BadgeShown(s2, msg.room)
         && msg in s2.view
  {
    PrivateRoomIdSymmetric(other, me);
    PrivateRoomBadgeTarget(me, other);
    PrivateRoomIdHasSeparator(other, me);
    var s1 := RenderMessage(s, msg);
    ArrivalAway(s, msg);
    SwitchShowsCached(s1, other, msg);
  }

  /** A new message for an unfocused, fully read room is cached and badged with a count of 1. */
  lemma ArrivalAway(s: State, msg: Message)
    requires msg.room != s.currentRoom && Unread(s, msg.room) == 0
    requires !HasId(Cached(s, msg.room), msg.id)
    ensures var r := RenderMessage(s, msg);
      Unread(r, msg.room) == 1 && BadgeShown(r, msg.room) && r.view == s.view
      && msg in Cached(r, msg.room) && r.currentUser == s.currentUser
  {
  }

  /** Switching into a message's private room focuses it and draws the message from the cache. */
  lemma SwitchShowsCached(s: State, other: string, msg: Message)
    requires s.currentUser.Some? && msg.room == PrivateRoomId(s.currentUser.value, other)
    requires msg in Cached(s, msg.room)
    ensures var r := SwitchRoom(s, other, true).state;
      r.currentRoom == msg.room && Unread(r, msg.room) == 0 && !BadgeShown(r, msg.room) && msg in r.view
  {
  }
}
