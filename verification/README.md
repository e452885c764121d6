# Messenger backend — a Dafny model

This project models the core of an Express/MySQL messenger. Users register and
log in. They add each other as friends through friend requests. They chat in
direct and group conversations, with reactions, typing indicators, read flags
and presence. A built-in assistant account ("Nebula AI", id `0000-0000-AI`)
answers whoever writes to it. The model also covers the single-page app's
navigation guard.

Each handler becomes a pure function over one immutable `Store`. The store holds
users, conversations, memberships, messages, reactions, friend requests and the
process-local typing registry. The clock `now` (milliseconds) and every fresh
UUID are parameters, and so are the hashing, comparison, geolocation and
text-generation services.

- **Data model and database layer.** `Schema` defines the rows and the
  invariant `Valid`, which covers primary keys, the two unique keys, unique
  usernames and the foreign keys. `Db` defines one function per SQL statement.
  An INSERT that would violate a constraint yields `None`, because the
  statement throws. Every statement keeps `Valid`, so every handler does too.
  Database timestamps are truncated to whole seconds (`Base.DbTime`), as a
  `DATETIME` column stores them.
- **Handlers.** Each handler answers a `Step`: the store afterwards plus a
  reply `Ok(value)` or `Fail(code, error)`. The error strings are the ones the
  handlers send.
- **Conversations and messages.**
  - `Directory` covers find-or-create of direct chats, transactional group
    creation and the per-viewer conversation list.
  - `MessageStore` covers append, listing with reaction counts and the bulk
    mark-read.
  - `Typing` covers the typing registry, `Reactions` the reaction toggle, and
    `Presence` the activity middleware and the two-minute online rule.
- **The assistant.** `Bot` holds its trigger, the five-message history, the
  prompt, the generation service and the later reply. `Chat` holds
  `sendMessage`, which hands the background job to the assistant.
- **Accounts and friends.** `Friends` covers the friend-request handlers,
  `Auth` registration, login, logout and password change, and `Users` the user
  directory and deletion.
- **Frontend.** `Router` is the routes table, vue-router's default path
  matching (ASCII case ignored, one optional trailing slash) and the
  `beforeEach` guard.

Where a reader might expect something else, the model follows the code:
- Find-or-create ignores titles, so a shared group satisfies it.
- Sending checks neither membership nor, apart from the foreign key, the
  conversation.
- Typing marks are never evicted.
- The assistant's reply insert has no error handler. A failing insert (for
  example after the assistant's user row was deleted) is an unhandled
  rejection that ends the server process, and `Bot.BotReply` reports it as
  `Crashed` rather than as "nothing changes".
- Removing a reaction ignores its label.
- `acceptRequest` does not check who calls it.
- The assistant's history is read after the new message is stored, so the new
  message reaches the prompt twice (`Chat.PromptRepeatsMessage`).

The DDL in backend/src/db.js lacks several columns the queries use:
`isRead`, `type`, `mediaUrl`, `lastActiveAt`, `avatarUrl`, `role`, the
geolocation columns, and the whole `MessageReaction` table. The model includes
them as the queries use them. `MessageReaction` gets a primary key on `id` and
no foreign keys. One row per (message, user) is an invariant that the toggle
keeps, not a database constraint.

## Model

| member | source | states |
|---|---|---|
| Base.DbTime | backend/src/db.js:33 | a database timestamp is the request time truncated to the whole second: a multiple of 1000 within the preceding second |
| Db.InsertUser | backend/src/db.js:29-34 | the insert succeeds iff the id and the username are both unused; on success exactly that row is appended and validity is kept |
| Db.InsertConversation | backend/src/db.js:37-43 | succeeds iff the id is unused; appends exactly the row |
| Db.InsertMember | backend/src/db.js:45-56 | succeeds iff the id is unused, the (user, conversation) pair is not yet a member, and both referenced rows exist; appends exactly the row and keeps validity |
| Db.InsertMessage | backend/src/db.js:58-68 | succeeds iff the id is unused and sender and conversation exist; appends exactly the row |
| Db.InsertRequest | backend/src/db.js:70-81 | succeeds iff the id and the ordered (sender, receiver) pair are unused and both users exist |
| Db.InsertReaction | backend/src/controllers/chat.controller.js:193 | succeeds iff the reaction id is unused (no other constraint is declared) |
| Db.SetLastActive | backend/src/middleware/activity.middleware.js:6 | only the rows with that id get the new stamp; every other row and table is unchanged |
| Db.SetPassword | backend/src/controllers/auth.controller.js:135 | only the rows with that id get the new hash; nothing else changes |
| Db.SetAvatar | backend/src/controllers/user.controller.js:23 | only the rows with that id get the new avatar URL |
| Db.SetRequestStatus | backend/src/controllers/friend.controller.js:59 | only the request with that id changes status; ids and pairs are kept, so validity is too |
| Db.MarkRead | backend/src/controllers/chat.controller.js:229 | exactly the conversation's messages from others become read; the viewer's own and other conversations' rows are untouched |
| Db.DeleteRequest | backend/src/controllers/friend.controller.js:69 | the remaining requests are exactly those with another id |
| Db.DeleteReaction | backend/src/controllers/chat.controller.js:189 | the remaining reactions are exactly those with another id |
| Db.DeleteUser | backend/src/db.js:52-79 | ON DELETE CASCADE: the user, their memberships, sent messages and requests in either role disappear; conversations and reactions stay; validity is kept |
| Directory.FindShared | backend/src/controllers/chat.controller.js:15-21 | finds a conversation where both users are members, or reports that none of the given conversations has both |
| Directory.NewDirect | backend/src/controllers/chat.controller.js:29-35 | in a valid store the three inserts succeed iff the conversation and membership ids are fresh and distinct, the users differ and both exist; success appends exactly one untitled conversation and the two memberships |
| Directory.CreateConversation | backend/src/controllers/chat.controller.js:15-43 | if the two users already share any conversation (titled or not) it is returned and nothing changes; otherwise success adds exactly one untitled conversation with exactly the two users as members, and a failure rolls back to the original store with "Could not create conversation" |
| Directory.CreateConversationSettles | backend/src/controllers/chat.controller.js:15-26 | after a successful call, calling again for the same pair in either order changes nothing |
| Directory.AddMembers | backend/src/controllers/chat.controller.js:65-68 | in a valid store with an existing conversation, the loop succeeds iff every listed user exists and is not yet a member, the ids are distinct and the membership ids drawn are fresh and distinct; on success exactly one plain membership per listed id is appended, in list order, and validity is kept |
| Directory.AddMembersRejects | backend/src/controllers/chat.controller.js:65-68 | a member listed twice, or one already in the conversation, makes the loop fail |
| Directory.CreateGroup | backend/src/controllers/chat.controller.js:55-76 | in a valid store the transaction commits iff the conversation id is fresh, the creator and every listed user exist, no listed id is the creator or repeated, and the membership ids drawn are fresh and distinct; success adds a conversation with the title, the creator as admin and each listed id as a plain member; any failure leaves the store exactly as it was |
| Directory.GroupMembers | backend/src/controllers/chat.controller.js:55-76 | after a committed group creation, the members of the new conversation are exactly the creator and the listed users |
| Directory.MembersOf | backend/src/controllers/chat.controller.js:99-104 | the joined member list holds the user row of every member of the conversation that has one, and nothing else; with one membership row per (user, conversation) each member appears once |
| Directory.FirstOther | backend/src/controllers/chat.controller.js:132 | picks a member other than the viewer, and is empty iff every listed member is the viewer |
| Directory.Summarize | backend/src/controllers/chat.controller.js:115-154 | a titled conversation is always a group named by its title; an untitled one is listed iff another member exists, as that member, online iff it is the assistant or was active within two minutes; the unread count is the viewer's; a group entry carries the conversation's joined member list |
| Directory.DirectOther | backend/src/controllers/chat.controller.js:131-133 | the direct rendering finds an other member exactly when the conversation has a member other than the viewer |
| Directory.GroupOnline | backend/src/controllers/chat.controller.js:124-128 | a group is online iff some member other than the viewer was active in the last two minutes |
| Directory.ViewerConversations | backend/src/controllers/chat.controller.js:86-92 | a permutation of the viewer's conversations (each as often as in the table, so once each when conversation ids are unique), newest first |
| Directory.Summaries | backend/src/controllers/chat.controller.js:95-155 | keeps order and drops exactly the omitted conversations; distinct conversations give entries with distinct ids |
| Directory.GetUserConversations | backend/src/controllers/chat.controller.js:82-157 | every entry is one of the viewer's conversations with the viewer's unread count and the group/direct rendering above; a direct entry carries the other member's id, username and avatar; every titled conversation of the viewer, and every untitled one with another member, appears; a conversation with no other member never does; every group entry carries the conversation's joined member list, each member once in a valid store; entries are newest first, and no conversation is listed twice when conversation ids are unique |
| Directory.OmittedStayOmitted | backend/src/controllers/chat.controller.js:130-154 | an untitled conversation without another member contributes no entry |
| MessageStore.UnreadCountZero | backend/src/controllers/chat.controller.js:107-110 | the unread count is zero iff no message of the conversation from someone else is unread |
| MessageStore.UserReactedIsFlag | backend/src/controllers/chat.controller.js:208-209 | with one reaction per (message, user), the per-user count is at most one, and is one iff the user has reacted |
| MessageStore.Post | backend/src/controllers/chat.controller.js:253-270 | the message is appended iff id, sender and conversation pass the constraints, and is echoed with the sender's id, username and avatar and zero reaction counts; otherwise a 500 and no change |
| MessageStore.JoinSenders | backend/src/controllers/chat.controller.js:210-212 | the join holds exactly the conversation's messages whose sender exists, each with its sender row |
| MessageStore.JoinKeepsMessages | backend/src/controllers/chat.controller.js:210-212 | the joined rows' messages are, in table order, exactly the conversation's messages whose sender exists |
| MessageStore.Timeline | backend/src/controllers/chat.controller.js:206-214 | a permutation of the joined rows of the conversation, ascending by creation time: each message of the conversation with an existing sender appears exactly as often as in the table |
| MessageStore.GetMessages | backend/src/controllers/chat.controller.js:202-237 | the listing is ascending and holds each message of the conversation with an existing sender exactly once per table row, and carries the pre-update read flags, the sender's id, username and avatar from its user row, and the reaction counts; typing users are exactly those with a mark younger than ten seconds other than the viewer; afterwards every message from others in the conversation is read, and nothing else changes |
| MessageStore.ListingClearsUnread | backend/src/controllers/chat.controller.js:229 | after listing, the viewer's unread count for the conversation is zero and the viewer's own messages are untouched |
| MessageStore.Views | backend/src/controllers/chat.controller.js:206-214 | the rendered listing is ascending, is a permutation of the conversation's messages with an existing sender, and carries each message's sender columns from the sender's user row, its reaction count and a viewer flag that is at most one |
| MessageStore.GetMessagesIdempotent | backend/src/controllers/chat.controller.js:229 | listing twice leaves the same store as listing once |
| MessageStore.MediaKind | backend/src/controllers/chat.controller.js:325-327 | audio iff the type starts with audio/; image iff not audio and it starts with image/; file otherwise |
| MessageStore.SendMediaMessage | backend/src/controllers/chat.controller.js:315-353 | no file: 400 and no change; otherwise the attachment message of the derived kind pointing at the upload URL, stamped with the database time, is appended iff the constraints hold and echoed with the sender's columns and zero reaction counts; a failed insert answers "Error sending media" and changes nothing |
| MessageStore.MediaThenListed | backend/src/controllers/chat.controller.js:206-235 | after a successful upload in a valid store, the next listing of the conversation shows the attachment with its kind, file URL and the uploader's columns |
| Typing.MarkTyping | backend/src/controllers/chat.controller.js:171-174 | sets exactly the (conversation, user) mark to now; every other mark is kept |
| Typing.SendTyping | backend/src/controllers/chat.controller.js:167-176 | only the typing registry changes: the conversation key is added, the caller's key is added under it, and every other mark is kept |
| Typing.MarkThenRead | backend/src/controllers/chat.controller.js:219-226 | a fresh mark is reported to every other viewer for exactly ten seconds, never to its author, and other users' visibility is unchanged |
| Typing.ReportedIff | backend/src/controllers/chat.controller.js:219-226 | a user is reported typing to a viewer iff they hold a mark in that conversation younger than ten seconds and are not the viewer |
| Reactions.FindReaction | backend/src/controllers/chat.controller.js:185 | finds a row of the (message, user) pair, or none exists |
| Reactions.ToggleReaction | backend/src/controllers/chat.controller.js:178-199 | an existing pair is removed whatever the label; otherwise one row is added iff its id is fresh; under validity removal deletes exactly the pair's row; one row per pair is kept |
| Reactions.RemovedRowsArePair | backend/src/controllers/chat.controller.js:189 | deleting the found row by id removes exactly the rows of that pair |
| Reactions.ToggleTwiceRestores | backend/src/controllers/chat.controller.js:185-195 | adding then removing restores the original store, whatever the two labels |
| Reactions.ToggleFlips | backend/src/controllers/chat.controller.js:185-195 | each successful toggle flips the user's reacted flag between 0 and 1 |
| Presence.UpdateLastActive | backend/src/middleware/activity.middleware.js:3-12 | next() always runs; without a caller or with a failing store nothing changes; otherwise only the caller's row gets the current stamp |
| Presence.TouchedCallerOnline | backend/src/middleware/activity.middleware.js:4-6 | after the touch the caller is online for the next 119 seconds |
| Presence.PresenceExpires | backend/src/controllers/chat.controller.js:137-139 | two minutes after the last stamp a user other than the assistant is offline |
| Bot.FirstOtherMember | backend/src/controllers/chat.controller.js:274-275 | a member row of the conversation other than the sender, or none when every member row is the sender's |
| Bot.DirectChatAddressed | backend/src/controllers/chat.controller.js:274-275 | in a conversation of just the sender and the assistant, every message from the sender wakes the assistant |
| Bot.NeverAddressesItself | backend/src/controllers/chat.controller.js:274-275 | a message sent by the assistant never wakes the assistant |
| Bot.Latest | backend/src/controllers/chat.controller.js:286-290 | as many rows as the conversation has messages, capped at five, newest first |
| Bot.HistoryIsLatest | backend/src/controllers/chat.controller.js:286-296 | the history is chronological, drawn from the conversation, and nothing left out is later than anything kept |
| Bot.HistoryChronological | backend/src/controllers/chat.controller.js:293 | reversing the newest-first rows gives oldest-first rows |
| Bot.DroppedNoLater | backend/src/controllers/chat.controller.js:289 | rows beyond the limit are no later than the rows kept |
| Bot.NewestLast | backend/src/controllers/chat.controller.js:253-290 | a message strictly newer than the rest of its conversation is the last history turn |
| Bot.TurnOf | backend/src/controllers/chat.controller.js:293-296 | a stored message becomes an assistant turn iff the assistant sent it, with the same content |
| Bot.Prompt | backend/src/services/ai.service.js:10-14 | the system instruction, then one turn per history message in order, then the new message as a user turn |
| Bot.AiService | backend/src/services/ai.service.js:8-25 | the completion's content, or the fixed fallback text when the call throws |
| Bot.BotReply | backend/src/controllers/chat.controller.js:299-306 | nothing happens iff the reply text is falsy; with a truthy text the assistant's message is appended iff its insert succeeds, and a failing insert is an unhandled rejection that ends the process |
| Bot.DeletedBotCrashes | backend/src/controllers/chat.controller.js:299-306 | once the assistant's user row is gone, a truthy reply fails its foreign key and crashes the process |
| Bot.ErrorStillAnswers | backend/src/services/ai.service.js:22-25 | a failing generation call still produces the fallback message from the assistant |
| Chat.SendMessage | backend/src/controllers/chat.controller.js:246-313 | the text message is appended and echoed, with the sender's id, username and avatar, iff id, sender and conversation pass the constraints (membership is not checked); the assistant job starts iff it is the first other member, and then its typing mark is set to now and the job carries the history read after the insert |
| Chat.BotShownTyping | backend/src/controllers/chat.controller.js:278-283 | once the assistant is woken, every other user sees it typing for ten seconds |
| Chat.PromptRepeatsMessage | backend/src/controllers/chat.controller.js:285-299 | when earlier messages are older, the prompt's last two turns are both the new message |
| Chat.ConversationWithBot | backend/src/controllers/chat.controller.js:272-306 | from a valid store, a waking message followed by a truthy service answer appends exactly the assistant's reply to the same conversation |
| Friends.FindLink | backend/src/controllers/friend.controller.js:23 | a request linking the two users in either direction, or none exists |
| Friends.FindLinkUnique | backend/src/controllers/friend.controller.js:23-27 | with one row per pair, the first linking row is the only one |
| Friends.SendRequest | backend/src/controllers/friend.controller.js:4-39 | unknown name: 404; oneself: 400; failures change nothing; success inserts exactly one pending request to the named user when no live request links them; when the first linking row is absent or rejected, the handler falls through to the insert, which succeeds iff the sender exists, no row of the same direction exists and the id is fresh, and otherwise answers "Error sending request" |
| Friends.RejectedFallsThrough | backend/src/controllers/friend.controller.js:22-34 | a rejected request from the other user does not block a new request: with one row per pair, it is inserted as pending |
| Friends.OwnRejectedFails | backend/src/controllers/friend.controller.js:22-37 | a rejected request of one's own to the same user passes the check, but the insert breaks the unique (sender, receiver) key and the reply is a server error |
| Friends.LiveLinkRefused | backend/src/controllers/friend.controller.js:24-28 | an accepted link is refused with "Already friends", a pending one with "Request already pending", in either direction |
| Friends.SendRequestKeepsTidy | backend/src/controllers/friend.controller.js:22-31 | while no row is rejected, sending keeps at most one request per unordered pair |
| Friends.SendersOf | backend/src/controllers/friend.controller.js:45-47 | the request's row joined with each user row of its sender, so at most one row when user ids are unique |
| Friends.PendingIn | backend/src/controllers/friend.controller.js:44-49 | the rows are exactly the pending requests addressed to the caller, joined with their senders; with unique request and user ids no request is listed twice |
| Friends.GetPendingRequests | backend/src/controllers/friend.controller.js:41-54 | lists exactly the pending requests whose receiver is the caller, with the sender's name, each once in a valid store |
| Friends.AcceptRequest | backend/src/controllers/friend.controller.js:56-64 | always "Accepted"; exactly the request with that id becomes accepted, whoever calls |
| Friends.DeclineRequest | backend/src/controllers/friend.controller.js:66-74 | always "Declined"; exactly the request with that id is deleted |
| Friends.AcceptMakesFriends | backend/src/controllers/friend.controller.js:59 | after accepting, the two parties are friends in both directions, whoever accepted |
| Friends.AcceptClearsPending | backend/src/controllers/friend.controller.js:44-49 | once a request is accepted it is no longer listed as pending for anyone |
| Friends.AcceptKeepsTidy | backend/src/controllers/friend.controller.js:59 | accepting keeps at most one request per unordered pair and writes no rejected status |
| Friends.DeclineUnlinks | backend/src/controllers/friend.controller.js:69 | declining the only request between two users leaves no link between them |
| Friends.CountUnreadFromZero | backend/src/controllers/friend.controller.js:87-90 | a friend's unread count is zero iff they sent no unread message into any conversation the caller belongs to |
| Friends.OtherParty | backend/src/controllers/friend.controller.js:92-95 | the join yields the user rows on either side of the request other than the caller |
| Friends.FriendRows | backend/src/controllers/friend.controller.js:81-96 | the rows are exactly the other parties of accepted requests involving the caller |
| Friends.GetFriends | backend/src/controllers/friend.controller.js:76-119 | lists exactly the users other than the caller linked to them by an accepted request, with that unread count and online iff the assistant or active within two minutes |
| Friends.ListedIff | backend/src/controllers/friend.controller.js:81-96 | a user is on the caller's list iff an accepted request links them |
| Friends.FriendListSymmetric | backend/src/controllers/friend.controller.js:92-95 | b is on a's list iff a is on b's |
| Auth.Bootstrap | backend/src/controllers/auth.controller.js:44-66 | without the assistant nothing happens; otherwise the result is the store after some prefix of the five inserts (partial progress persists), and all five when the ids fit |
| Auth.Register | backend/src/controllers/auth.controller.js:6-73 | missing fields: 400; a taken name: 400; otherwise success iff the new id is free, adding the user with the hashed password and then the bootstrap; failures change nothing |
| Auth.NewUserMeetsBot | backend/src/controllers/auth.controller.js:49-62 | a registered user is friends with the assistant and shares with it a two-member conversation holding one message unread by the user |
| Auth.Bootstrapped | backend/src/controllers/auth.controller.js:49-62 | the five bootstrap rows make the newcomer the assistant's friend and co-member of a conversation holding nobody else, with one unread message |
| Auth.RegisterKeepsTidy | backend/src/controllers/auth.controller.js:51 | the welcome request keeps at most one request per pair |
| MessageStore.UnreadCountAppend | backend/src/controllers/chat.controller.js:107-110 | appending a message raises a viewer's unread count by one exactly when it is unread for them |
| Auth.Login | backend/src/controllers/auth.controller.js:75-100 | success iff the first user with that name exists and the password matches its hash, answering that user's id, name and role; every other outcome is "Invalid credentials", except a missing password for a known user, which makes the comparison throw |
| Auth.LoginHidesWhichFailed | backend/src/controllers/auth.controller.js:82-89 | an unknown name and a wrong password give the identical answer |
| Auth.RegisterThenLogin | backend/src/controllers/auth.controller.js:79-89 | after registering, the same name and password log in as the new user |
| Auth.Logout | backend/src/controllers/auth.controller.js:102-113 | only the caller's last-activity stamp is cleared; nothing changes without a caller |
| Auth.LogoutGoesOffline | backend/src/controllers/auth.controller.js:104-106 | after logout the caller (unless the assistant) is offline |
| Auth.ChangePassword | backend/src/controllers/auth.controller.js:115-142 | missing fields: 400; unknown caller: 404; wrong current password: 400; failures change nothing; success iff all pass, replacing only the caller's hash |
| Auth.ChangeThenLogin | backend/src/controllers/auth.controller.js:129-135 | after a change the new password logs in, and when the comparison accepts only the password that was hashed, the old one no longer does |
| Auth.FindByNameUnique | backend/src/controllers/auth.controller.js:79-80 | with unique usernames the first user found by name is that user |
| Users.GetAllUsers | backend/src/controllers/user.controller.js:3-12 | exactly the users other than the caller, as id and name; with unique user ids each appears once, so the list is one shorter than the table iff the caller exists |
| Users.GetMe | backend/src/controllers/user.controller.js:32-39 | the caller's id, name and avatar, and nothing iff the caller's row is gone |
| Users.UploadAvatar | backend/src/controllers/user.controller.js:14-30 | no file: 400 and no change; otherwise only the caller's avatar becomes the upload URL |
| Users.UploadThenGetMe | backend/src/controllers/user.controller.js:20-23 | after an upload the caller's profile shows the new avatar and other profiles are unchanged |
| Users.GetAllUsersAdmin | backend/src/controllers/user.controller.js:41-49 | every user exactly once, newest account first, with no role check |
| Users.AdminListsEveryone | backend/src/controllers/user.controller.js:43 | each user's row is in the administrator listing |
| Users.DeleteUserHandler | backend/src/controllers/user.controller.js:51-60 | the user and, by cascade, their memberships, sent messages and requests disappear; no role check; conversations and reactions stay |
| Users.DeletedUserVanishes | backend/src/controllers/user.controller.js:51-60 | after the delete the user is absent from every listing, from /me, from every friendship and from every conversation |
| Users.DeleteKeepsTidy | backend/src/controllers/user.controller.js:54 | deletion keeps at most one request per pair |
| Router.Resolve | frontend/src/router/index.js:6-28 | the first declared route whose path matches ignoring ASCII case and one trailing slash, or none iff no route matches |
| Router.ResolvesDeclared | frontend/src/router/index.js:6-23 | each declared path resolves to its own route |
| Router.CaseAndSlashIgnored | frontend/src/router/index.js:25-28 | /LOGIN/ resolves to Login and /Register to Register, and a signed-in visit to /Login/ is sent to / |
| Router.OnlyChatRequiresAuth | frontend/src/router/index.js:6-28 | a path requires authentication iff it resolves to the chat page, that is iff it is / or empty |
| Router.Guard | frontend/src/router/index.js:30-40 | to /login iff the target requires auth and no token is stored; to / iff the target is Login or Register and a token is stored; otherwise proceed |
| Router.NoRedirectLoop | frontend/src/router/index.js:30-40 | the target of a redirect is let through under the same token |
| Router.LandsOnAllowedPage | frontend/src/router/index.js:30-40 | when navigation ends on a declared page, that page is the chat page iff a token is stored |

## Left out

- HTTP, JSON and status codes are reduced to `Ok`/`Fail(code, error)`. Logging is left out.
- GetMessages: the typing users are returned as a set. The handler lists them as an array in the registry's key order, and that order is not modelled, because the registry is modelled as a map.
- What follows a `Crashed` reply is left out: the restart, the in-flight requests that are lost, and the empty typing registry afterwards.
- Router.Resolve: percent-decoding, query strings and hash fragments of the path are left out, and case folding is limited to ASCII letters, which is all the declared paths contain.
- Connection pooling, the transaction-as-I/O mechanics, and concurrency are left out. This includes find-or-create races and requests interleaving with the assistant's background reply. The reply is a separate later transition (`Bot.BotReply`) applied to whatever store exists then.
- bcrypt, jwt and the geolocation lookup are parameters: `hash`, `matches`, and the `geo` value. Signing the token is left out; the claims are returned instead.
- The generation call is an uninterpreted parameter `gen` from prompt to completion. A thrown error becomes the fallback text.
- The handlers read the typing mark (`Date.now()`) and the database clock (`NOW()`/`CURRENT_TIMESTAMP`) at slightly different moments. The model uses one `now` per handler call.
- The table order stands in for SQL's unspecified row order. It decides the first-row picks (`existing[0]`, `users[0]`, `members[0]`, the direct chat's other member) and ties between equal timestamps. Most listings state only order and contents, which hold for any tie order. `Chat.SendMessage` is the exception: it states the job's history as `Bot.History`, which picks and orders messages stamped in the same second by table order. The properties that hold for every choice are those of `Bot.HistoryIsLatest`.
- Request-body fields that are absent or not strings are left out, except where a handler tests them for truthiness. These include `recipientId`, a `memberIds` that is not a list, and `content`. The missing values would reach the database as NULL.
- MySQL's case-insensitive collation is not modelled; usernames compare exactly.
- Dropping and recreating the tables at start-up is left out, and so are the upload middleware's disk storage and random file names. The upload is given as a file name and MIME type.
- The handlers' 500 replies for a failing database connection are left out (outside inserts that violate a constraint). The middleware's failure path is modelled by its `storeUp` flag.
- Friends.GetFriends: does not state that each friend appears once. That holds only while the request table keeps one row per pair (`Friends.Tidy`), and the handler itself does not enforce it.
