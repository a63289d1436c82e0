# Chat presence and routing engine, modelled in Dafny

This project models the WebSocket endpoint `ChatServer` of a small Java chat
server. The endpoint keeps three maps in memory and changes them in place:

- `users`: each open session mapped to the username it logged in with, or to
  nothing (Java `null`) before login;
- `groups`: each group name mapped to the set of its member names;
- `userGroups`: the reverse index, each username mapped to the set of its groups.

Three callbacks drive it. `onOpen` registers a session. `onMessage`
dispatches on the decoded record's `type`: `login`, `createGroup` or
`message`. `onClose` drops a session. The handlers change the maps and then
send envelopes to sessions: user lists, group lists, group messages and
private messages.

How the model is built:

- `ChatServer` is a Dafny class with the three maps as fields
  (`chat_server.dfy`). Every `sendText` is an append of
  `Delivery(session, envelope)` to the field `outbox`.
- The loops over `users.entrySet()`, `users.keySet()` and `groups.values()`
  are `while` loops. Each step picks an arbitrary remaining key, because a
  `HashMap`'s iteration order is unspecified.
- Each handler method is proved against a predicate in `routing.dfy`. The
  predicate relates the state before, the state after and the sends the
  handler made.
- Deliveries are stated per session: `Inbox(sent, s)` is the sequence of
  envelopes session `s` received. So no property depends on the order in
  which the map was walked.
- Sessions are natural numbers. Usernames and group names are strings.

Three behaviours of the code are easy to miss, and the model keeps them:

- Closing a bound session removes that user from every group and deletes its
  reverse entry (`ChatServer.java:199-205`). Group membership does not
  survive a disconnect. `Properties.ReconnectLosesMembership` proves that a
  user who reconnects is no longer a member, and that its group messages are
  dropped.
- A second login with a name that is already bound leaves both sessions bound
  (`ChatServer.java:53`). Nothing supersedes the old session.
  `Properties.DuplicateLoginKeepsBoth` proves this.
- A login resets the user's reverse entry to the empty set
  (`ChatServer.java:56`). That breaks the agreement between the two indices
  whenever the user is already in a group. `Directory.ResetKeepsInSyncIff`
  states exactly when the agreement survives.

Files:

- `envelopes.dfy`: sessions, inbound and outbound envelopes, per-session
  inboxes, the `group:` address parse, `String.join`.
- `registry.dfy`: queries on `users`, the session search and the user-list
  collection.
- `directory.dfy`: the updates of the two group indices and their agreement
  invariant.
- `routing.dfy`: the snapshot of the state and one specification predicate
  per handler.
- `chat_server.dfy`: the imperative class.
- `properties.dfy`: properties that span several steps, and an end-to-end
  session.

## Model

| member | source | states |
|---|---|---|
| `Server.ChatServer.constructor` | src/main/java/com/chat/server/ChatServer.java:11-18 | the engine starts with no sessions, no groups, no reverse entries and nothing sent |
| `Server.ChatServer.OnOpen` | src/main/java/com/chat/server/ChatServer.java:23-28 | a new session is registered with no name; the other sessions, both group maps and the sends are unchanged |
| `Server.ChatServer.OnMessage` | src/main/java/com/chat/server/ChatServer.java:30-49 | `login`, `createGroup` and `message` records go to their handlers with the content, member list and recipient fields; any other kind changes nothing and sends nothing |
| `Server.ChatServer.HandleLogin` | src/main/java/com/chat/server/ChatServer.java:51-61 | the session is bound to the name, other bindings stay, even other sessions bound to the same name; the name's reverse entry becomes empty; `groups` is unchanged; each logged-in session then receives exactly one user list |
| `Server.ChatServer.HandleCreateGroup` | src/main/java/com/chat/server/ChatServer.java:63-93 | an existing name changes no state and sends nothing; a new name maps to the set of the listed members, each member's reverse entry gains the group (created if missing), group lists are sent, then every session of a member gets one `System` announcement naming all listed members; index agreement is preserved |
| `Server.ChatServer.StoreGroup` | src/main/java/com/chat/server/ChatServer.java:68-77 | the new name maps to the set of the listed members; after the loop each listed member has a reverse entry, which is its old entry (or empty) plus the group, and other entries are untouched; index agreement is preserved |
| `Server.ChatServer.HandleMessage` | src/main/java/com/chat/server/ChatServer.java:95-108 | no state changes; `group:<g>` goes to the group fan-out only when `g` exists and the sender is a member, otherwise nothing is sent; any other recipient gets a private message with the sender's echo |
| `Server.ChatServer.SendGroupMessage` | src/main/java/com/chat/server/ChatServer.java:110-126 | every session whose bound name is in the group receives the group envelope exactly once, and no other session receives anything |
| `Server.ChatServer.SendPrivateMessage` | src/main/java/com/chat/server/ChatServer.java:128-136 | one private envelope goes to one session of the recipient if it has one, then one goes to a session of the sender |
| `Server.ChatServer.SendToUser` | src/main/java/com/chat/server/ChatServer.java:138-150 | exactly one send, to a session bound to the name, when the name has a session; no send otherwise |
| `Server.ChatServer.BroadcastUserList` | src/main/java/com/chat/server/ChatServer.java:152-157 | every logged-in session receives exactly one copy of the same user list; the list names each user once per session bound to it |
| `Server.ChatServer.BroadcastGroupList` | src/main/java/com/chat/server/ChatServer.java:159-181 | for each listed member that has a session, in list order and once per occurrence, one group list carrying that member's whole reverse entry goes to a session of that member |
| `Server.ChatServer.Broadcast` | src/main/java/com/chat/server/ChatServer.java:183-194 | each session with a bound name receives the envelope exactly once; unbound sessions receive nothing |
| `Server.ChatServer.OnClose` | src/main/java/com/chat/server/ChatServer.java:196-212 | a bound user loses its reverse entry and is removed from every group's member set, with no group deleted; the session is removed in every case; then each remaining logged-in session receives one user list; index agreement is preserved |
| `Registry.FindSession` | src/main/java/com/chat/server/ChatServer.java:160-168 | the search finds nothing exactly when no session is bound to the name; what it finds is bound to the name |
| `Registry.ListBoundNames` | src/main/java/com/chat/server/ChatServer.java:153-154 | the collected names contain each name as many times as sessions are bound to it |
| `Registry.UserListNamesBound` | src/main/java/com/chat/server/ChatServer.java:152-157 | a user list names a user exactly when some session is bound to it |
| `Envelopes.ParseRecipientText` | src/main/java/com/chat/server/ChatServer.java:98-100 | parsing `group:` plus a name gives that group; a username without the prefix parses to itself |
| `Envelopes.RecipientTextParse` | src/main/java/com/chat/server/ChatServer.java:98-106 | every recipient field is recovered from the address it parses to, so the prefix test and `substring(6)` lose nothing |
| `Envelopes.ParseRecipient` | src/main/java/com/chat/server/ChatServer.java:98-100 | a recipient names a group exactly when it starts with `group:`, and then the group is the text after the six-character prefix; any other text names the user it spells |
| `Envelopes.JoinPlacesPart` | src/main/java/com/chat/server/ChatServer.java:84 | in `String.join(sep, parts)` each part appears in full at its offset: after every earlier part and the separator that follows it |
| `Envelopes.JoinPlacesSep` | src/main/java/com/chat/server/ChatServer.java:84 | in the joined text a separator directly follows every part but the last |
| `Envelopes.JoinLength` | src/main/java/com/chat/server/ChatServer.java:84 | the joined text ends with the last part: nothing follows it |
| `Envelopes.JoinSnoc` | src/main/java/com/chat/server/ChatServer.java:83-84 | the joined member list puts the separator between consecutive members, built from the left as `String.join` does |
| `Routing.MemberSet` | src/main/java/com/chat/server/ChatServer.java:68 | the stored member set holds each listed name once, so it has at most as many names as the list has entries |
| `Routing.CreationNotice` | src/main/java/com/chat/server/ChatServer.java:83-84 | the announcement opens with `Group '`, the group's name and `' has been created with members: ` |
| `Routing.CreationNoticeNamesMembers` | src/main/java/com/chat/server/ChatServer.java:83-84 | after that opening, each listed member appears in full, in list order and with repeats kept, at its place in the comma-separated list |
| `Directory.CreateKeepsInSync` | src/main/java/com/chat/server/ChatServer.java:66-77 | creating a group that does not exist keeps "`u` is in `groups[g]` exactly when `g` is in `userGroups[u]`" |
| `Directory.RemoveKeepsInSync` | src/main/java/com/chat/server/ChatServer.java:199-205 | removing a user from every group and dropping its reverse entry keeps the two indices in agreement |
| `Directory.ResetKeepsInSyncIff` | src/main/java/com/chat/server/ChatServer.java:53-56 | resetting a user's reverse entry keeps the indices in agreement exactly when the user is in no group |
| `Properties.PrivateEcho` | src/main/java/com/chat/server/ChatServer.java:128-149 | between two users with one session each, a private message is sent exactly twice, to the recipient and then to the sender; when the users differ, each of the two sessions receives it once and nobody else does |
| `Properties.GroupAddressRouting` | src/main/java/com/chat/server/ChatServer.java:98-125 | a message to `group:<g>` from a member reaches every session of every member exactly once, the sender's own session included; from a non-member, an unbound session or to a missing group, nothing is sent |
| `Properties.SecondCreateIsIgnored` | src/main/java/com/chat/server/ChatServer.java:66-92 | a second creation of the same name, with any members, leaves the first group's state and sends nothing |
| `Properties.DuplicateLoginKeepsBoth` | src/main/java/com/chat/server/ChatServer.java:51-59 | after a second login with a bound name, both sessions are bound to it, each receives one user list, and the list names the user at least twice |
| `Properties.ReconnectLosesMembership` | src/main/java/com/chat/server/ChatServer.java:196-206 | a member that disconnects, reconnects and logs in again is no longer in the group, and its message to the group is dropped |
| `Properties.DispatchKeepsInSync` | src/main/java/com/chat/server/ChatServer.java:37-48 | every inbound kind except `login` keeps the forward and reverse group indices in agreement |
| `Properties.CloseKeepsInSync` | src/main/java/com/chat/server/ChatServer.java:196-208 | a disconnect keeps the forward and reverse group indices in agreement |
| `Properties.TwoUsersList` | src/main/java/com/chat/server/ChatServer.java:152-156 | with two sessions bound to two different names, the user list is exactly those two names, once each |
| `Properties.ScenarioLogins` | src/main/java/com/chat/server/ChatServer.java:23-59 | two connections log in as `alice` and `bob`: the first login sends alice the list `alice`, the second sends both the list `alice`, `bob` |
| `Properties.ScenarioCreate` | src/main/java/com/chat/server/ChatServer.java:63-85 | creating `team` with both sends each of them the group list `team` and then the creation announcement, and nothing to anyone else |
| `Properties.ScenarioChat` | src/main/java/com/chat/server/ChatServer.java:95-125 | alice's message to `group:team` reaches alice's and bob's sessions once each |

## Left out

- `Main.java`, the server bootstrap (host, port, waiting on the thread): process plumbing with no logic of its own.
- JSON decoding and encoding with Gson. The model takes the decoded record (`MessageData`) and produces structured envelopes. The comma-joined `content` text of user and group lists is a multiset and a set, because its order follows `HashMap` order.
- Records with missing fields; every field is present in the model. In the source, a null `type` or `recipient` throws. A null `groupMembers` throws only for a new group name, at line 68. For an existing name, the request reaches the `else` at lines 90-92 and is only logged. A null username in a login binds the session to nothing, and line 56 also stores an empty reverse entry under the null key, which `HashMap` allows.
- A private message from a session that has not logged in. The source delivers to the recipient, then throws `NullPointerException` in `sendToUser(null, …)` at line 140. The model makes a bound sender a precondition of `OnMessage` and `HandleMessage` for non-group recipients.
- Send failures (`IOException`). The source only logs them, so every send succeeds in the model.
- Logging to `System.out` and `System.err`.
- Concurrency. The container calls the handlers concurrently on unsynchronised static maps. The model runs each handler to completion, one at a time.
- `Server.ChatServer.BroadcastGroupList`: the searches for one member all walk the same unchanged `HashMap`, so in the source they find the same session each time. The contract allows a different session of that member for each occurrence.
- `Server.ChatServer.SendToUser`: the source sends to the first bound session in `HashMap` order. The contract says only "some session bound to the name", because that order is unspecified.
