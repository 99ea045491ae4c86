# Dating app core: presence, likes and matches, chat, admin records

This project is a Dafny model of the record logic of a small dating web application. The application is an Express and socket.io server backed by MongoDB, with a separate admin server. The model covers these parts, each as one sequential step over in-memory collections:

- **Presence registry.** An ordered map from user id to socket id. `online` sets an entry. Each of the two `disconnect` listeners scans for the socket, deletes the first hit and stops (`presence.dfy`).
- **Like route and match engine** (`matching.dfy`, written as functions). The route:
  - pushes the target into the liker's `likes` if it is not there yet;
  - always appends a like notification to the target;
  - on reciprocity, pushes each user into the other's `matches` and `chatUsers` if not there yet.
- **The same route as the imperative store update** (`Store.Like` in `user_store.dfy`). It performs the guarded pushes and the three saves. It is proved equal to the functional version.
- **Conversation and message store** (`chat.dfy`):
  - send, edit, delete and `seen`;
  - the `lastMessage` pointer;
  - the chat page's find-or-create of a conversation.
- **Socket handlers** (`handlers.dfy`). They combine the registry, the user store and the message store. Each returns the events it emits, in order.
- **Discover page and message dashboard** (`views.dfy`):
  - the discover candidate filter;
  - the dashboard loop that lists matched users who have no conversation yet;
  - the last-message preview line.
- **requireLogin, admin login and requireAdmin** (`access.dfy`). The admin login compares credentials after JavaScript's `trim`.
- **Admin record operations** (`admin.dfy` and `Store` in `user_store.dfy`):
  - the connect-time ban check;
  - the dashboard counters;
  - ban, unban and clear-reports;
  - the delete-user guard;
  - delete-photo-by-index, which follows `Array.prototype.splice`.
- **The user record and its schema defaults** (`user_model.dfy`).

Ids are opaque strings, and timestamps are integers passed in by the caller. A user document is a datatype. The collections are Dafny maps and sequences, held in classes where the server mutates them.

## Model

| member | source | states |
|---|---|---|
| Common.PushUnique | server.js:794-797 | `if (!xs.some(..)) xs.push(x)`: x is in the result, the members are exactly the old ones plus x, the old array is a prefix, and a duplicate-free array stays duplicate-free |
| Common.PushUniqueOnce | server.js:822-836 | on a duplicate-free array the pushed id occurs exactly once afterwards |
| Common.PushUniqueIdempotent | server.js:794-797 | a second guarded push of the same id changes nothing |
| UserModel.NewUser | models/User.js:17-88 | a new user has empty likes, followers, following, matches, notifications, photos and reports; role "user"; banned, verified and deleted false; online false; lastActive the creation time; not an admin and well formed |
| UserModel.NewNotification | models/User.js:52-59 | a notification given only its text gets link "/" and read false |
| UserModel.NewPhoto | models/User.js:3-15 | a gallery photo carries its url, no likes and no comments |
| Presence.KeyIndex | server.js:43 | the position of the user's entry, the first one with that key, or none when no entry has the key |
| Presence.SocketIndex | server.js:82-84 | the first entry, in insertion order, held by the socket, or none |
| Presence.Get | server.js:163 | `onlineUsers.get`: none exactly when no entry has the key; otherwise that entry's socket |
| Presence.Set | server.js:60 | `onlineUsers.set`: keys stay unique, an existing key keeps its position and a new key is appended |
| Presence.SetGet | server.js:56-60 | after `set` the user maps to the new socket and every other user's lookup is unchanged |
| Presence.RemoveAt | server.js:85 | `onlineUsers.delete` of the entry at a position: the others keep their order |
| Presence.AfterDisconnect | server.js:82-95 | one disconnect listener: keys stay unique, at most one entry goes, only an entry of this socket goes, and users not on this socket keep their lookup |
| Presence.DisconnectRemovesOne | server.js:82-95 | a listener removes exactly one of the socket's entries when it holds any, none otherwise |
| Presence.SecondDisconnectNoOp | server.js:251-265 | the second listener changes nothing exactly when the socket held at most one entry |
| Presence.StaleDisconnectKeepsNewSocket | server.js:82-95 | a user who re-registered on a new socket stays registered on it when the old socket disconnects |
| Presence.OnlySocketDisconnected | server.js:82-95 | a user whose socket held only that entry is no longer found after the disconnect |
| Presence.Registry.Lookup | server.js:163 | the registry's lookup equals `Get` on its entries |
| Presence.Registry.Online | server.js:53-60 | a falsy id changes nothing; otherwise the entries become `Set(old, user, socket)` and the user maps to this socket |
| Presence.Registry.Disconnect | server.js:82-95 | the loop with `break` leaves exactly `AfterDisconnect(old, socket)` and returns the removed user, who is then not found |
| Matching.LikeNotification | server.js:800-806 | the like notification is unread, links to "/discover" and is dated now |
| Matching.LikerAfter | server.js:794-836 | the liker's likes become the guarded push of the target; on a match, matches and chatUsers get the guarded push of the target too, and without one they are unchanged; every other field is kept |
| Matching.TargetAfter | server.js:800-836 | the target gets the notification appended and its likes are unchanged; on a match, matches and chatUsers get the guarded push of the liker, and without one they are unchanged; every other field is kept |
| Matching.Like | server.js:778-864 | one like changes no key of the collection and no user other than the liker and the target |
| Matching.LikeMissingTarget | server.js:783 | an unknown target answers no match and leaves the collection unchanged |
| Matching.LikeRecordsTarget | server.js:794-797 | the liker's likes contain the target exactly once and gain nothing else |
| Matching.LikeNotifiesTarget | server.js:800-807 | every call, a repeat included, appends exactly one unread notification linking to /discover |
| Matching.LikeMatchIff | server.js:819 | the answer is a match exactly when the target exists and already liked the liker |
| Matching.LikeMatchSymmetric | server.js:819-836 | on a match each id is in the other's matches and chatUsers exactly once; without one, those four arrays are unchanged |
| Matching.LikePreservesWellFormed | server.js:778-864 | records stay stored under their ids, with duplicate-free arrays that never hold the user's own id |
| Matching.LikeGrows | server.js:794-836 | no array entry is ever removed; the only new matches and chatUsers entries are the pair of a match |
| Matching.LikeKeepsMatchListsMutual | server.js:819-829 | a like keeps every matches entry mutual and backed by likes in both directions |
| Matching.LikeKeepsChatListsMutual | server.js:832-836 | a like keeps every chatUsers entry mutual |
| Matching.LikePreservesMutualMatches | server.js:819-839 | both mutuality invariants survive a like |
| Matching.LikerAfterReplay | server.js:794-836 | repeating the liker's update leaves the record as it is |
| Matching.TargetAfterReplay | server.js:800-836 | repeating the target's update only appends another notification |
| Matching.LikeRecords | server.js:778-864 | on an existing target, the liker's and the target's records are exactly `LikerAfter` and `TargetAfter` |
| Matching.LikeReplay | server.js:778-864 | a replay gives the same answer, changes no likes, matches or chatUsers array, and only adds one notification for the target |
| Matching.MutualLikeScenario | server.js:778-864 | A likes B, then B likes A: the second answer is a match, and each is in the other's matches and chatUsers exactly once |
| UserStore.MarkAllRead | server.js:1584 | the `forEach` loop marks every notification read and changes nothing else in it |
| UserStore.PhotoIndex | server.js:1507 | `photos.id(photoId)`: the first photo with that id, or none |
| UserStore.LikePhotoAt | server.js:1508-1511 | that photo's likes get the guarded push of the liker; id, url and comments kept; other photos unchanged |
| UserStore.LikePhotoTwice | server.js:1508-1511 | liking the same photo twice is liking it once |
| UserStore.Store.Create | server.js:433-442 | signup refuses an email some stored user already has ("Email exists"); otherwise exactly the new record is added under its id |
| UserStore.SignupKeepsEmailsUnique | server.js:433-442 | a signup that passed the email check keeps stored emails distinct, and a second signup with the same email is refused |
| UserStore.Store.SaveLike | server.js:794-797 | the first save: the liker's likes become the guarded push |
| UserStore.Store.SaveNotification | server.js:800-807 | the second save: the target's notifications get the note appended |
| UserStore.Store.SaveMatch | server.js:822-839 | the match saves: both users get the guarded pushes into matches and chatUsers |
| UserStore.Store.Like | server.js:778-864 | the in-place route leaves exactly the collection and answer of `Matching.Like` |
| UserStore.Store.SetPresence | server.js:62-65 | an existing user gets online and lastActive set; an unknown id updates nothing |
| UserStore.Store.ResetUnread | server.js:109-113 | a truthy existing id gets unreadCount 0; anything else updates nothing |
| UserStore.Store.IncrementUnread | server.js:158-161 | an existing receiver's unreadCount grows by one |
| UserStore.Store.OpenNotifications | server.js:1581-1585 | every notification of the user becomes read; nothing else changes |
| UserStore.Store.LikePhoto | server.js:1503-1514 | with owner and photo found, exactly `LikePhotoAt` on that photo is saved; otherwise nothing changes |
| UserStore.Store.AdmitConnection | admin-server.js:20-34 | the store and the refusal follow `Admin.ConnectCheck` for the handshake's user; a falsy handshake id (missing or empty, as `if(socket.handshake?.auth?.userId)` tests) or an unknown id is admitted with nothing changed |
| UserStore.Store.Ban | admin-server.js:379-385 | exactly the target gets `BanRecord`; an unknown id changes nothing |
| UserStore.Store.Unban | admin-server.js:393-399 | exactly the target gets `UnbanRecord`; an unknown id changes nothing |
| UserStore.Store.ClearReports | admin-server.js:449 | exactly the target's reports become empty |
| UserStore.Store.DeletePhoto | admin-server.js:497-501 | the user's photos become `RemoveAtIndex(photos, index)`; a missing user changes nothing |
| UserStore.Store.DeleteUser | admin-server.js:363-376 | deletes exactly when `MayDelete` holds, and then removes only that id |
| Chat.MessagesIn | server.js:1006-1008 | the messages of one conversation, and no others |
| Chat.MessagesInConcat | server.js:1006-1008 | the history keeps creation order: the room's messages of an earlier run of the store come before those of a later one |
| Chat.MessagesInAppend | server.js:136-142 | a message just created comes last in its room's history |
| Chat.MarkSeen | server.js:233-240 | exactly the room's messages from other senders become seen; everything else is kept |
| Chat.MarkSeenIdempotent | server.js:233-240 | a second `seen` from the same viewer changes nothing |
| Chat.MarkSeenEffect | server.js:233-240 | after `seen`, every message of the room not from the viewer is seen, and the viewer's own are as before |
| Chat.EditMessage | server.js:197-201 | messages with that id get the new text and edited true; the others are unchanged |
| Chat.RemoveMessage | server.js:218 | exactly the messages with that id are gone; with no such id nothing changes |
| Chat.FreshCons | server.js:218 | proof step for delete: a kept message whose id is unused by the rest of the kept store keeps the ids distinct and below the next id |
| Chat.RemoveMessageFresh | server.js:218 | deleting keeps message ids distinct and below the next id |
| Chat.RemoveMessageOne | server.js:218 | deleting an existing id removes exactly one message |
| Chat.SetLastMessage | server.js:144-147 | the conversation with that id points at the message and is dated now; the others are unchanged |
| Chat.FindConversation | server.js:996-998 | the first conversation, in store order, holding both users (no earlier one holds both), or none exactly when no conversation holds both |
| Chat.FindConversationSymmetric | server.js:996-998 | `$all` ignores the order of the two users |
| Chat.FindAfterAppend | server.js:1000-1004 | a conversation created after a failed search is the one found next |
| Chat.SendThenSeen | server.js:136-142 | a just-sent message from someone else shows as seen after the viewer reports `seen` |
| Chat.EditThenHistory | server.js:197-201 | an edited message shows in the room's history with the new text and the edited flag |
| Chat.MessageStore.Send | server.js:136-147 | the new message is unseen and unedited, has a fresh id, is appended, and its conversation points at it |
| Chat.MessageStore.Edit | server.js:197-201 | messages become `EditMessage(old, id, text)` |
| Chat.MessageStore.Delete | server.js:218 | messages become `RemoveMessage(old, id)`, one shorter when the id exists |
| Chat.MessageStore.Seen | server.js:233-240 | messages become `MarkSeen(old, room, viewer)` |
| Chat.MessageStore.OpenChat | server.js:992-1004 | returns the existing conversation of the pair unchanged, or creates one only when none exists; afterwards both search orders find it |
| Views.Discover | server.js:525-530 | the candidates are exactly the listed users other than the viewer, with a photo, not in the viewer's likes |
| Views.DiscoverConcat | server.js:530 | the filter keeps the query's order: it distributes over concatenation |
| Views.DiscoverAfterLike | server.js:794-797 | after a like, the target leaves the liker's candidates and no one else does |
| Views.ConversationsOf | server.js:871-875 | the conversations the viewer takes part in, and no others |
| Views.WithoutConvo | server.js:879-890 | the listed users are exactly the stored chatUsers with no conversation of the viewer |
| Views.MatchedWithoutConvo | server.js:879-890 | the loop over chatUsers, with the inner `some` scan, builds exactly `WithoutConvo` |
| Views.OpenedChatNotListed | server.js:879-890 | once a conversation of the viewer holds a matched user, that user is not listed and no one new is |
| Views.Includes | server.js:913 | `includes` holds exactly when the pattern occurs at some position |
| Views.FindMessage | server.js:875 | `populate("lastMessage")`: the stored message with that id, or none exactly when none has it |
| Views.Preview | server.js:912-916 | "No messages yet" without a resolvable last message; otherwise the image label when the text contains "<img", else the text |
| Views.PreviewAfterSend | server.js:144-147 | right after a send, the room's preview shows the new message's text or the image label |
| Views.PreviewAfterDelete | server.js:218 | deleting the message a conversation points at makes its preview "No messages yet", even when older messages remain |
| Views.OtherParticipant | server.js:907-910 | `find`: the first participant other than the viewer (every earlier one is the viewer), or none exactly when all are the viewer |
| Handlers.HandleOnline | server.js:53-68 | a falsy id does nothing and emits nothing; otherwise register, mark online and broadcast userOnline |
| Handlers.MarkOffline | server.js:87-90 | only the removed user, when stored, is marked offline |
| Handlers.HandleDisconnect | server.js:76-100 | both listeners: the registry is `AfterDisconnect` twice, the removed users are distinct entries of this socket, users on other sockets keep their lookup, and each removed user is marked offline and announced |
| Handlers.HandleJoinRoom | server.js:104-120 | the unread counter of a truthy existing id is reset, and unreadUpdate goes to the joining socket |
| Handlers.HandleSend | server.js:134-177 | the message store is updated as `Send`; for a truthy receiver unread grows by one, and a registered receiver socket gets unreadUpdate then delivered |
| Handlers.HandleEdit | server.js:195-212 | messages become `EditMessage`, and messageEdited goes out whether or not the id exists |
| Handlers.HandleDelete | server.js:216-227 | messages become `RemoveMessage`, and messageDeleted goes out whether or not the id exists |
| Handlers.HandleSeen | server.js:231-247 | messages become `MarkSeen`, and seen goes to the room |
| Handlers.LikeEvents | server.js:809-861 | liked goes to the target's socket first when registered; match events go out only on a match, one to each registered side, each carrying the other side's id, name and photo, and no other events: the count is one per registered recipient |
| Handlers.HandleLike | server.js:778-864 | the store follows `Matching.Like`; a missing target emits nothing; otherwise the events are `LikeEvents` on the records as loaded |
| Handlers.ReplayAnnouncesMatchAgain | server.js:819-861 | replaying a matched like changes no record of the liker yet announces the match again |
| Access.RequireLogin | server.js:340-369 | proceed exactly for an existing user who is neither banned nor deleted; the banned page exactly for an existing banned user; a redirect without destroying the session exactly when there is no session user |
| Access.TrimStart | admin-server.js:222 | removes exactly the leading JavaScript white space |
| Access.TrimEnd | admin-server.js:222 | removes exactly the trailing JavaScript white space |
| Access.Trim | admin-server.js:222-223 | the result is the input with a white-space prefix and a white-space suffix removed, and has no white space at either end |
| Access.TrimIdempotent | admin-server.js:222-223 | trimming twice is trimming once |
| Access.TrimOpt | admin-server.js:222-223 | optional chaining: a missing value stays missing and a present one becomes its `Trim` |
| Access.AdminLogin | admin-server.js:221-224 | as written: accepted iff each field is missing together with its configured value, or equal to it after trimming |
| Access.UnconfiguredLoginAccepted | admin-server.js:221-224 | with no admin credentials configured, a request omitting both fields is accepted |
| Access.AdminLoginConfigured | admin-server.js:221-224 | corrected check: acceptance needs configured and submitted credentials equal after trimming |
| Access.LoginIgnoresPadding | admin-server.js:221-224 | for any configuration, trimming the submitted credentials first never changes the outcome, of the check as written or of the corrected one |
| Access.RequireAdmin | admin-server.js:110-113 | passes exactly when the session's admin flag is set |
| Access.AdminFlagAfterLogin | admin-server.js:221-227 | a successful login sets the flag so `requireAdmin` passes; a failed one leaves it |
| Admin.ConnectCheck | admin-server.js:20-34 | as written: refused exactly when banned, with banReason or "Account banned"; a non-banned user with a past expiry gets banned false and banExpires null; anyone else is unchanged |
| Admin.ExpiredBanStillRefused | admin-server.js:24-33 | a banned user whose ban expired is still refused, on every connection |
| Admin.ConnectCheckExpiryFirst | admin-server.js:24-33 | corrected order: a past expiry lifts the ban; only a banned user with no past expiry is refused |
| Admin.ExpiredBanLifted | admin-server.js:24-33 | under the corrected order an expired ban admits the user, and the next login check passes |
| Admin.TotalUsers | admin-server.js:37 | counts non-deleted documents, never more than there are |
| Admin.OnlineUsers | admin-server.js:38 | counts online non-deleted documents, never more than `totalUsers` |
| Admin.TotalMatches | admin-server.js:40-46 | sums matches lengths of non-deleted documents, 0 when there are none |
| Admin.CountersSplit | admin-server.js:37-46 | the three counters add up over any split of the collection |
| Admin.TotalUsersCountsIds | admin-server.js:37 | with distinct ids, totalUsers is the number of distinct non-deleted ids |
| Admin.ReplaceChangesTotalMatches | admin-server.js:40-46 | replacing one non-deleted document changes totalMatches by the change in its matches length |
| Admin.BanRecord | admin-server.js:381-384 | banned true with reason "Banned by admin"; every other field kept |
| Admin.UnbanRecord | admin-server.js:395-399 | banned false, banReason and banExpires null; every other field kept |
| Admin.BanUnbanIdempotent | admin-server.js:379-405 | banning twice is banning once, and likewise for unbanning |
| Admin.BanThenUnban | admin-server.js:379-405 | after a ban, the next request gets the banned page and the next connection is refused; after an unban a non-deleted user passes both |
| Admin.MayDelete | admin-server.js:366-367 | deletes exactly when the user exists and its role is not "admin" |
| Admin.RemoveAtIndex | admin-server.js:500 | `splice(index, 1)`: drops the photo at a valid position and keeps the rest in order; a position past the end drops nothing; a negative one counts back from the end |

## Left out

- Transport. socket.io rooms, `broadcast`, `socket.to` and HTTP are not modelled. Handlers return their events as values, and delivery is not modelled.
- Rendering. HTML pages, client-side scripts and the `typing`/`stopTyping` relays are emitters only.
- Foreign calls. bcrypt password hashing and comparison, multer uploads and the database connection are not modelled. The signup route's password is a caller-supplied value.
- Migrations and scripts. The startup migrations run as database pipelines and are not modelled. reset-users.js is only a deleteMany script and is not part of this model.
- Concurrency. Each handler is one sequential step; interleavings of async handlers are not modelled. This includes two users liking each other at the same moment.
- The `matchCreated` relay (server.js:181-191) is only a lookup plus an emit and is not modelled.
- Errors. Cast errors on malformed ids, and the handlers' `catch` blocks, are not modelled. Ids are abstract strings, and a missing user or photo is treated as "not found".
- Time. Timestamps are integers supplied by the caller. The ban-expiry test is an integer comparison.
- Matching.Like: requires `liker != liked`. For a self-like the route would load two separate copies of one document and save both; that case is not modelled.
- Matching.Like: requires the liker to exist, as the `requireLogin` middleware guarantees.
- UserStore.Store.OpenNotifications: requires the user to exist, as `requireLogin` guarantees. Without that the route would throw.
- Schema dropouts. The notification field `type: "like"` is not declared in the schema, so it would be dropped; the model leaves it out.
  - `chatUsers`, `unreadCount`, `banReason` and `banExpires` are also missing from the user schema. The handlers write them, and Mongoose in strict mode would drop them. The model keeps them as the handlers intend.
- Message ordering. Messages are kept in insertion order. This stands for `sort({createdAt: 1})` on strictly increasing creation times.
- UserStore.Store.ResetUnread: a single per-user `unreadCount` is modelled. `joinRoom` resets it whatever the room, which is what the code does.
- Chat.MessageStore.Send: a message for an unknown conversation is still created, and no conversation is updated, as in the code.
- Replays. A replayed like re-emits the match events and answers `{match: true}` again (`Handlers.ReplayAnnouncesMatchAgain`). The model follows the code rather than an at-most-once reading.
- UserStore.Store.DeletePhoto: the route passes `index` as a URL string, and `splice` converts it to an integer. A non-numeric string converts to 0 and would remove the first photo. The model takes an integer index.
- Views.Discover: the query's `photo: {$exists: true}` is modelled as "a photo is set". A photo explicitly stored as null is not distinguished.
- `includes` on ObjectId arrays is modelled as id equality.
- A participant that cannot be found when conversations are populated would make the dashboard throw; that case is not modelled.
- Admin.TotalUsers: counts are over a sequence of documents. The database-side `$ifNull` treats a missing `matches` as empty; in the model `matches` is always present.

- Views.ConversationsOf: keeps store order. The dashboard's `sort({updatedAt: -1})` (server.js:876) orders only the rendered list. Which users are listed apart from the conversations does not depend on that order, so it is not modelled.
- UserStore.Store.Create: a signup without an email is compared as a missing value against stored missing emails. How Mongoose treats an `undefined` filter value in `findOne({email})` is not modelled.

## Findings

| source | as written | input that shows it | evidently intended | confidence | as-written member | corrected member |
|---|---|---|---|---|---|---|
| admin-server.js:221-224 | optional chaining on both sides of `===` makes a missing field equal a missing env var | ADMIN_EMAIL and ADMIN_PASSWORD unset, POST /admin-login with no email and no password: `undefined === undefined` twice, so the admin flag is set | log in only against configured credentials | high (not executed) | Access.UnconfiguredLoginAccepted | Access.AdminLoginConfigured |
| admin-server.js:24-33 | the ban test returns before the expiry test, so expiry is only checked for users who are not banned; no route of the two servers ever sets `banExpires` to a date (they only clear it) and the schema does not declare it, so the input depends on data written outside this code | a user with banned true and banExpires in the past connects: "banned" is emitted and the socket is dropped, every time | an expired ban is lifted at connection | low (not executed) | Admin.ExpiredBanStillRefused | Admin.ExpiredBanLifted |
