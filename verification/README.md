# Chat relay: room membership, fan-out and the client's cache reconciler

A Dafny model of the two event-driven state machines of a small multi-room
chat (a Node.js socket.io server and its browser client):

- **Server relay state** (`Server.dfy`): the persisted document (user
  directory and per-room message log), the set of online usernames, and for
  every connected socket the rooms it joined and the name it authenticated
  as. `register`, `login`, `disconnect`, `update profile`, `new message`,
  `join room` and `typing` are each one pure transition returning the new
  state and the emitted events, each tagged with the exact set of sockets
  that receive it.
- **Client cache and notification reconciler** (`Client.dfy`): the focused
  room, the per-room message cache, per-room unread counts, the messages
  drawn in the open conversation, and the typing indicator. `switchRoom`,
  `auth success`, `render message`, `user typing` and `send` are pure
  transitions.
- **Room identity** (`Rooms.dfy`): JavaScript's default string order, the
  two-element sort, `join`/`split`, the private-room key
  (`[u1, u2].sort().join("_")`) and the badge-target inverse of that key.
- **Text helpers** (`Text.dfy`): ECMAScript `trim` and `isImageUrl`.
- `Messages.dfy` holds the message record and the id/room queries on logs;
  `Relay.dfy` connects server fan-out with client rendering;
  `Optional.dfy` holds `Option`.

I/O and nondeterminism become parameters: `Date.now()` and the formatted
time are the `id`/`time` arguments of `Server.NewMessage`, the bcrypt hash is
the `hashed` argument of `Server.Register`, `bcrypt.compare` is the
`matches` function argument of `Server.Login`, and the value of the input
box is the `input` argument of `Client.Send`.

Modelling choices that follow the code:

- The key derivation sorts by lexicographic order on `seq<char>`.
- Messages are deduplicated by id in the cache, but a duplicate is still
  drawn (focused room) or counted unread (other rooms).
- The online set is a duplicate-free sequence in insertion order, the order
  `Array.from` produces.
- `socketUsername` is tested for truthiness: a socket that authenticated as
  `""` does not take `""` offline when it disconnects.
- A private `switchRoom` with nobody logged in throws on
  `currentUser.username` before any effect, so it is modelled as doing
  nothing.
- Authentication errors are the datatype `NameTaken | BadCredentials`
  instead of the two message strings.

Facts about the code that the model keeps:

- The server's `join room` handler adds the announced room to the socket's
  rooms and leaves none (server.js:128-130), so `Server.JoinRoom` only grows
  the socket's rooms.
- Message ids come from the clock (server.js:115). Two messages can share
  one, so nothing in the model assumes ids differ.
- A socket is subscribed once, when it authenticates (server.js:31-39,
  64-65, 79-80). A later registration adds no room to sockets that are
  already logged in; `Server.LateRegistrantNotSubscribed` states the
  consequence.
- Presence is one set of names (server.js:22, 95). Closing any one socket of
  a user takes that user offline (`Server.ClosingOneSocketHidesUser`).
- The handlers that persist change the in-memory document first, then await
  `db.write()` (server.js:62, 106, 124), and only then emit. A rejected write
  ends the handler at that point, and nothing handles the rejection. The
  model covers only writes that succeed.
- The roster sent with `auth success` holds `{username, avatar}` objects
  (server.js:70, 85). The client uses each entry as a name
  (client.js:110-116), so every contact's `data-id` and click target is the
  text `[object Object]`. `Client.ContactClickMissesPrivateRoom` shows that a
  contact click never opens the private room with that contact.

## Model

| member | source | states |
|---|---|---|
| Rooms.BelowAsymmetric | client.js:10 | two strings are never each below the other in the sort order |
| Rooms.BelowTotal | client.js:10 | of two different strings one is below the other |
| Rooms.Sort2 | client.js:10 | `[a, b].sort()` returns a permutation of the two names in non-decreasing order, keeping the input order when it is already sorted |
| Rooms.Split | client.js:56 | `split("_")` yields at least one part, no part contains the separator, and joining the parts with it gives back the string |
| Rooms.JoinPair | client.js:10 | joining two names puts exactly one separator between them |
| Rooms.SplitJoin | client.js:56 | `split` undoes `join` when no part contains the separator |
| Rooms.PrivateRoomIdSymmetric | client.js:9-11 | the private-room key of `a` and `b` equals that of `b` and `a` |
| Rooms.PrivateRoomIdShape | server.js:24-26 | the key is the smaller name, `_`, the larger name |
| Rooms.PrivateRoomIdHasSeparator | server.js:24-26 | a private key always contains `_`, so it is never `general` or `spam` |
| Rooms.SplitPrivateRoomId | client.js:56 | splitting a key of separator-free names gives back the sorted pair |
| Rooms.PrivateRoomIdInjective | client.js:9-11 | for names without `_`, equal keys mean the same unordered pair of names |
| Rooms.SeparatorInNameCollides | client.js:10 | with `_` allowed in names, the pairs (`a_b`, `c`) and (`a`, `b_c`) get the same key |
| Rooms.FirstOther | client.js:56 | `find(u => u !== me)` returns the first part that is not the logged-in user, and none exactly when every part is that user |
| Rooms.BadgeTarget | client.js:56 | a room without `_` targets itself; for a room with `_` the target contains no `_` and is not the logged-in user |
| Rooms.PrivateRoomBadgeTarget | client.js:56 | for distinct names without `_`, the badge of the key of (me, other) lands on `other` |
| Rooms.SelfRoomHasNoBadgeTarget | client.js:56 | the key of a user with themselves has no badge target |
| Text.LeadingSpace | client.js:145 | counts the whitespace prefix exactly: all whitespace, followed by a non-whitespace character or the end |
| Text.TrailingSpace | client.js:145 | counts the whitespace suffix exactly |
| Text.Trim | client.js:145-148 | `trim()` returns the core of the input surrounded only by whitespace, with non-whitespace ends, and is empty exactly when the input is all whitespace |
| Text.TrimIdempotent | client.js:148 | trimming the trimmed text changes nothing |
| Text.FramedCore | client.js:145 | a trimmed core with non-whitespace ends starts where the leading whitespace ends and stops where the trailing whitespace starts |
| Text.FramedPadding | client.js:145 | padding an input with whitespace keeps its core, shifted by the left padding |
| Text.FramedUnique | client.js:145 | an input has only one trimmed core |
| Text.TrimIgnoresPadding | client.js:145-148 | whitespace added on either side does not change what is sent |
| Text.ImageBySuffix | client.js:14 | any text ending in `.jpg`, `.jpeg`, `.png`, `.webp` or `.gif` is an image URL |
| Text.ImageByHost | client.js:14 | any text starting with the Unsplash image host is an image URL |
| Text.NoDotNoImage | client.js:14 | text without a dot that is not under that host is not an image URL |
| Text.UpperCaseExtensionIsText | client.js:14 | the suffix test is case-sensitive: `cat.JPG` is not an image URL |
| Messages.InRoom | client.js:30-32 | the messages `renderMessage` would draw for a room are exactly the log's messages of that room |
| Messages.InRoomAppend | client.js:32 | filtering distributes over appending one message |
| Messages.InRoomAll | client.js:97-99 | a log filed under its own room is drawn in full |
| Client.SwitchRoom | client.js:75-99 | focuses the target (or the private key with the current user), announces it, zeroes that room's count leaving every other count alone, clears the typing indicator, redraws from the cache; a private switch with nobody logged in changes nothing |
| Client.AuthSuccess | client.js:103-121 | sets the user, replaces the cache with the history or nothing, focuses `general` with count 0, draws `general`'s cache, and keeps other rooms' counts |
| Client.RenderMessage | client.js:125-140 | caches a message once per id in its room only; a focused room's message is drawn with counts unchanged, another room's raises that room's count by exactly one (absent counting as 0) without touching the view, duplicates included |
| Client.UserTyping | client.js:164-171 | for the focused room the indicator shows the author while typing and is cleared otherwise; other rooms leave the state unchanged |
| Client.Send | client.js:143-154 | emits exactly when a user is logged in and the input is not all whitespace; then it posts the trimmed text to the focused room, clears the input and announces typing stopped |
| Client.ApplyKeepsFocusedRead | client.js:81-83 | every client event keeps the focused room's count at 0 |
| Client.RunKeepsFocusedRead | client.js:81-82 | any sequence of events keeps the focused room's count at 0 |
| Client.FocusedRoomNeverUnread | client.js:133-137 | from page load, after any events, the focused room's count is 0 or absent |
| Client.BadgeMeansUnread | client.js:62 | while the focused room is read, a badge shows exactly for rooms with unread messages |
| Client.NoBadgeAfterSwitch | client.js:82-83 | right after a switch the new room has count 0 and no badge |
| Client.DuplicateDelivery | client.js:128-138 | delivering a message twice caches it once but counts it twice |
| Client.RenderKeepsDistinct | client.js:127-130 | caching keeps ids pairwise distinct in every room |
| Client.ApplyKeepsDistinct | client.js:105 | every event keeps caches duplicate-free, provided a login's history is |
| Client.RenderViewConsistency | client.js:128-134 | drawing keeps the view equal to the focused room's cache exactly when the message does not repeat a cached id of the focused room |
| Client.ArrivalAway | client.js:127-138 | a new message for an unfocused room whose count is 0 is cached, raises the count to 1 and shows a badge, leaving the view alone |
| Client.SwitchShowsCached | client.js:75-99 | switching into the private room of a cached message focuses it with count 0, no badge, and the message drawn |
| Client.ContactClickMissesPrivateRoom | client.js:110-116 | a contact click switches with the target `[object Object]`, which never gives the private room of the user and a contact whose name has no `_` |
| Client.PrivateMessageWhileAway | client.js:133-138 | a private message while reading `general` sets the private room's count to 1 and badges the sender; switching there clears it and draws the message |
| Server.Find | server.js:50 | returns the index of the first user with the name, none exactly when nobody has it |
| Server.FindUnique | server.js:113 | with unique usernames the match is the one entry with that name |
| Server.SubscribersGrow | server.js:125 | when no socket closes and no socket leaves a room, everybody `io.to(room)` reached before is still reached |
| Server.StaysSubscribed | server.js:125-130 | a socket that is never closed keeps receiving, after any events, every room it was receiving |
| Server.ContactsFollowEdit | server.js:101-108 | after a profile edit the directory list carries the new avatar for the edited user and is otherwise unchanged, names included |
| Server.AppendKeepsUniqueNames | server.js:50-61 | appending a user whose name is not taken keeps usernames unique |
| Server.AddOnline | server.js:44 | `Set.add` adds exactly the name, appends a new name last, and keeps the list duplicate-free |
| Server.RemoveOnline | server.js:95 | `Set.delete` removes exactly the name and keeps the list duplicate-free |
| Server.RoomsToJoin | server.js:34-38 | the rooms joined are `general`, `spam`, and the key with every other directory user, and nothing else |
| Server.RoomsToJoinWithoutSelf | server.js:35 | the user's own directory entry adds no room, so subscribing before or after the entry is pushed joins the same rooms |
| Server.SubscribeToAllRooms | server.js:31-39 | only the socket's own rooms grow, by exactly those rooms |
| Server.SetUserOnline | server.js:42-46 | the name joins the online set, the socket remembers it, and every connected socket receives the list, which has the set's elements without repeats |
| Server.Authenticate | server.js:31-46 | going online and subscribing adds the name to the online set, names the socket, adds `general`, `spam` and every private room with another user to the socket's rooms and nothing else, leaves other sockets and the document alone, and tells every socket |
| Server.Connect | server.js:28-29 | a new socket starts with no rooms |
| Server.Register | server.js:49-73 | a taken name gets an error with nothing changed; a fresh one is appended last with empty email and avatar, goes online, is subscribed, is subscribed to `general`, `spam` and every room with an existing user and to nothing else, gets the history and directory, others are told; usernames stay unique |
| Server.Login | server.js:76-90 | an unknown name or a rejected password gets an error with nothing changed; otherwise the user goes online, is subscribed to `general`, `spam` and every room with another user and to nothing else, and gets the history and directory |
| Server.Disconnect | server.js:93-98 | the socket is dropped; its name leaves the online set and the rest are told only when the name is non-empty |
| Server.UpdateProfile | server.js:101-110 | only the matching user's email and avatar change, a missing or empty value becoming `""`; an unknown name changes nothing; the log is never touched |
| Server.Compose | server.js:113-121 | a new message copies user, text and room from the request, and snapshots the sender's current avatar or `""` for an unknown sender |
| Server.NewMessage | server.js:112-126 | appends the message to its room's log (created empty if absent), leaves other rooms alone, and delivers it to exactly the room's sockets, the sender included when it joined the room |
| Server.JoinRoom | server.js:128-130 | the socket gains exactly the new room and keeps all others |
| Server.Typing | server.js:132-134 | the signal goes to exactly the room's sockets other than the sender |
| Server.RunKeepsValid | server.js:50-61 | any events keep usernames unique, the online list duplicate-free, and messages filed under their rooms |
| Server.ReachableValid | server.js:12-22 | from startup those invariants hold after any events |
| Server.ApplyGrows | server.js:122-123 | an event only extends room logs at their end and only adds to a live socket's rooms |
| Server.RunGrows | server.js:122-123 | any events only extend room logs at their end |
| Server.SubscriptionsOnlyGrow | server.js:128-130 | a socket that is never closed keeps every room it joined |
| Server.LoggedMessagesPersist | server.js:101-109 | a logged message, avatar snapshot included, stays unchanged at its position through any events |
| Server.PrivateRoomReachesBoth | server.js:31-39 | two users who both log in while both exist share their private room: a message there reaches both, a typing signal reaches the other and not the sender |
| Server.LateRegistrantNotSubscribed | server.js:61-65 | a socket that logged in as `a` before `b` registered is not in their private room, so `b`'s message there does not reach it |
| Server.PrivateRoomNotJoined | server.js:34-38 | authenticating as `a` joins no private room with a name missing from the directory, for names without `_` |
| Server.ClosingOneSocketHidesUser | server.js:93-97 | closing one of two sockets of a user takes the user offline although the other socket stays |
| Server.EmptyNameStaysOnline | server.js:94 | a socket named `""` does not take `""` offline and emits nothing |
| Server.AvatarSnapshotSurvivesEdit | server.js:117 | after posting and then editing the profile, the logged message keeps the old avatar while the directory has the new one |
| Relay.BroadcastRendersOnce | server.js:125 | a `general` message reaches both sockets in it, and a client reading `general` without that id caches and draws it once, keeping its view consistent and its caches duplicate-free |
| Relay.LoginShowsGeneralHistory | client.js:105 | after a successful login the client focuses `general` and draws exactly the server's `general` log |

## Left out

- Password hashing: `bcrypt.hash` is replaced by its result and `bcrypt.compare` by an arbitrary `matches` function.
- Persistence: `JSONFilePreset` and `db.write()` are file I/O, so the document is in-memory state. A `db.write()` that rejects (server.js:62, 106, 124) ends `register`, `update profile` or `new message` after the in-memory change and before its emits, and the rejection goes unhandled; the model treats every write as successful.
- Concurrency: handlers are atomic; the read-modify-write races around `await` on the shared document are not modelled.
- Clock: `Date.now()` and `toLocaleTimeString` are parameters; id uniqueness is not assumed.
- Transport: socket.io, express, static serving and `listen` are not modelled. Rooms are a map from socket to room names. The room named after each socket's own id is not modelled.
- The DOM: HTML building, `innerHTML`, scrolling, `transitionTo`, the header and contact-list highlighting, the contact list built from `allUsers`, themes, backgrounds, the auth form and `alert` are not modelled. The view is the sequence of messages drawn. The badge is the predicate `Client.BadgeShown`, not the DOM element, and the lookup of the contact element for a target is not modelled.
- Typing debounce: the `input` listener with its `setTimeout`/`clearTimeout` timer (client.js:156-162) is time-based.
- Strings: JavaScript compares UTF-16 code units, while Dafny's `char` is a Unicode scalar value. The order therefore differs from JavaScript's only for characters outside the Basic Multilingual Plane compared with those in U+E000–U+FFFF.
- JavaScript objects as maps: keys such as `__proto__` or `constructor`, which the plain objects `allMessages`, `unreadCounts` and `db.data.messages` inherit, are not modelled.
- Payload validation: request fields are assumed to be strings; `undefined` or non-string fields are not modelled, except for `email`/`avatar` in `update profile`, where a missing value is `None`.
- Client.PrivateMessageWhileAway: states the count and the badge target as the reconciler computes them. In the page, the contact elements carry `[object Object]` as `data-id` (client.js:113), so the element lookup for the badge finds nothing and no private badge is drawn. No contact click reaches the private room either (`Client.ContactClickMissesPrivateRoom`).
- Client.SwitchRoom: a target that makes the selector built at client.js:57 invalid (one containing `"`, say) makes `querySelector` throw. That happens after the `join room` emit, the focus change and the count reset, and before the typing indicator is cleared and the conversation redrawn. The model always completes the switch.
- The input box is not client state: its value is an argument of `Client.Send`, whose result gives its new value.
