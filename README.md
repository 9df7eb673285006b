# simple-messenger: chat membership, removal markers and unread messages

This project models the bookkeeping core of simple-messenger, a Flask and Socket.IO chat
application, and proves properties of that model in Dafny.
The core covers:

- which users belong to which chats;
- which users have hidden ("removed") which chats;
- which messages are unread by whom.

It is written as ORM methods in `app/models.py` and as the socket handlers and index page in
`app/main/routes.py`.

The database is the class `Models.Store`. Its fields are the tables:

- `users`, `roles` and `chats`;
- the membership pairs `members`, the removal markers `removed` and the directed `contacts`;
- `messages`;
- a `clock` that stands in for `datetime.now`.

Rows are addressed by position. Ids are handed out by autoincrement and nothing in the core
deletes a user, a chat or a message, so a row's id is its index (0-based here).
The two tables the core writes without committing, `removed` and `contacts`, also keep a
committed copy. `Commit` and `Rollback` act on that copy, because the deferred commits of
`add_contacts`, `delete_contacts` and `unmark_chats_as_removed` matter to the handlers.

The handlers are methods of `Routes.Server`. Its fields are:

- the store;
- `USER_WEBSOCKET_MAPPING` as `sockets`;
- each user's `session['current_chat_id']` as `session`, which a socket handler saves only
  when it returns normally (the socket layer is built with `manage_session=False`,
  app/__init__.py:21);
- an `outbox` holding every `socket_io.emit` and every spawned `send_update`, in order.

Each state-changing method states its whole new state against pure functions of the old
one: `Pushes`, `Grow`, `IndexWalk`, `Flushed`, `Markers`, `Grown` and others.
Lemmas then prove what the source promises about those functions.

The queries (`get_name`, `get_chat`, `get_available_chats_query`, `search_chats_query`,
`get_unread_messages_query` and the others) are functions in `Queries`. SQL leaves some
orders open: `.first()`, ties in `ORDER BY`, and iteration over query rows. In all of
those the model takes rows in ascending id order.

Three points about how the code behaves:

- `get_messages` does not flush read flags: the call is commented out (app/models.py:820).
  Messages become read only through the explicit flushes of `choose_chat`,
  `flush_messages` and `index`.
- `send_message` does not truncate the text to a maximum length. Only the search handlers
  truncate.
- `send_message` does not run as one transaction. It commits the message and the chat's
  modification time first, then deletes the recipients' markers. An exception after the
  commit rolls back only the marker deletes.

## Model

| member | source | states |
|---|---|---|
| Permissions.DefaultRolesAdministration | app/models.py:143-147 | the default Admin role (mask 0xff) holds `Permission.ADMINISTRATION`; the default User role (mask 0) does not |
| Permissions.BitAnd | app/models.py:665-667 | Python's `&` on non-negative integers, never larger than either operand |
| Permissions.GrantsBounded | app/models.py:665-667 | a mask grants only permission values no larger than itself |
| Permissions.GrantsReflexive | app/models.py:665-667 | every mask grants itself and the empty permission |
| Permissions.GrantsTransitive | app/models.py:665-667 | a mask that grants `b` grants everything `b` grants |
| Text.RStrip | app/main/routes.py:165 | `rstrip()` keeps a prefix that does not end in whitespace, and drops only whitespace |
| Text.RStripIdempotent | app/main/routes.py:165 | stripping a stripped text changes nothing |
| Text.RStripEmpty | app/main/routes.py:165-167 | the stripped text is empty exactly when the raw text is all whitespace |
| Text.RStripTrailing | app/main/routes.py:165 | appending whitespace does not change what is kept |
| Text.StrLeTotal | app/models.py:765-775 | the username collation compares any two strings |
| Text.StrLeTransitive | app/models.py:765-775 | the username collation is transitive |
| Text.LikeAnything | app/models.py:336-397 | `LIKE '%'` matches every string |
| Text.LikePrefix | app/models.py:336-397 | without wildcards, `LIKE q || '%'` is a prefix test |
| Text.LikeLeadingPercent | app/models.py:336-397 | a leading `%` matches the pattern against any suffix |
| Text.LikeContains | app/models.py:336-397 | without wildcards, `LIKE '%' || q || '%'` holds exactly when `q` occurs in the string |
| Queries.First | app/models.py:285-288 | `.first()` of a filter is a row satisfying it, and there is none exactly when no row does |
| Queries.GetName | app/models.py:273-289 | a non-empty stored name is returned; otherwise the username of a member whose username differs from the viewer's; otherwise the call raises |
| Queries.GetNameOfPair | app/models.py:273-289 | a nameless chat of two members is named after the other member, from either side |
| Queries.GetNameDefined | app/models.py:273-289 | `get_name` succeeds whenever the chat is named or has a member with another username |
| Queries.GetChat | app/models.py:400-410 | a chat found is one of the chats there are and has every given user as a member |
| Queries.GetChatFirst | app/models.py:400-410 | the chat found is the first chat containing all given users; none is found exactly when no chat contains them all |
| Queries.GetChatOrderFree | app/models.py:400-410 | the chat found does not depend on the order of the given users |
| Queries.ChatQuery | app/models.py:559-575 | exactly the chats the user belongs to that also have a listed user as a member |
| Queries.ChatQueryGetChat | app/models.py:400-410 | `get_chat_query([u])` is empty exactly when `Chat.get_chat([me, u])` finds no chat |
| Queries.RemovedQuery | app/models.py:577-601 | exactly the user's markers, restricted to the given chats when a chat query is given |
| Queries.RemovedChatsQuery | app/models.py:603-626 | exactly the user's chats that are shared with a listed user and marked removed by the user |
| Queries.AvailableChats | app/models.py:777-793 | exactly the chats the user belongs to and has not marked, each once, with `date_modified` descending |
| Queries.ByUsernameTotalPreorder | app/models.py:765-775 | ordering users by username is a total preorder |
| Queries.OtherUsers | app/models.py:765-775 | every user except the caller, each once, in username order |
| Queries.SearchChats | app/models.py:336-397 | the user's chats whose name is LIKE `%p%`, united with the user's chats that have a member with another username that is LIKE `%p%` |
| Queries.SearchDirectChat | app/models.py:336-397 | a nameless direct chat is found exactly when the other member's username matches; the caller's own username never matches |
| Queries.SearchBySubstring | app/models.py:336-397 | for a pattern without wildcards, the search is a substring test on chat names and on the other members' usernames |
| Queries.ChatMessages | app/models.py:809 | every message of the chat and nothing else, in table order |
| Queries.UnreadMessages | app/models.py:823-833 | exactly the chat's messages that the viewer did not send and that are not read |
| Queries.ChatMessagesChronological | app/models.py:795-821 | messages taken in table order come out in creation order |
| Queries.HasContact | app/models.py:720-728 | the edge from the user to the other user exists |
| Queries.IsContactedBy | app/models.py:730-738 | the edge from the other user to the user exists |
| Queries.ContactsDirected | app/models.py:720-738 | for every contact table, `a.has_contact(b)` holds exactly when `b.is_contacted_by(a)` does, and `a.is_contacted_by(b)` exactly when `b.has_contact(a)` does |
| Queries.ContactsAsymmetric | app/models.py:720-738 | a table holding only the edge `a -> b` gives `a` the contact `b` but not `b` the contact `a` |
| Queries.HasPermission | app/models.py:656-667 | a user holding a permission has an existing role, and the permission value is no larger than that role's mask |
| Queries.HasPermissionMonotone | app/models.py:656-667 | holding a permission implies holding each permission it includes |
| Queries.HasPermissionZero | app/models.py:656-667 | the empty permission is held exactly by users with an existing role |
| Models.JsonChatAsWritten | app/models.py:313-333 | as written, a group chat without a name is refused, and the row built never has a name |
| Models.JsonChatLosesName | app/models.py:313-333 | a group chat requested with the name "team" is built without a name |
| Models.JsonChat | app/models.py:313-333 | the corrected row keeps the requested name; every group chat it accepts is named |
| Models.Flushed | app/models.py:1008-1015 | the table keeps its length; each queried row has `was_read` set and every other row is unchanged |
| Models.FlushedRow | app/models.py:1008-1015 | each queried row has `was_read` set; every other row is unchanged; no row changes in anything but `was_read` |
| Models.FlushKeepsStamps | app/models.py:1008-1015 | a flush changes no creation stamp, so the table stays stamped by the clock and in creation order |
| Models.AppendKeepsStamps | app/main/routes.py:176-182 | a message stamped at the next tick keeps the table in creation order and stamped by the advanced clock |
| Models.FlushClearsUnread | app/models.py:1008-1015 | after a viewer's unread messages of a chat are flushed, none are unread |
| Models.FlushOnlyReads | app/models.py:1008-1015 | a flush never makes a message unread |
| Models.FlushLeavesOtherChats | app/models.py:1008-1015 | flushing one chat leaves every other chat's unread list unchanged, for every viewer |
| Models.FlushIsShared | app/models.py:892-893 | `was_read` is one flag per message, so one member's flush reads it for all members |
| Models.UsersNamed | app/models.py:323-324 | exactly the users whose usernames are listed, each once |
| Models.InstallRoles | app/models.py:148-153 | every given role exists afterwards with its given mask and default flag; other roles are unchanged |
| Models.Store.AddUsers | app/models.py:291-300 | a pair is a membership afterwards exactly when it was one before or it puts a listed user in the chat; committed |
| Models.Store.Commit | app/models.py:300 | the pending writes become the committed state |
| Models.Store.Rollback | config.py:6 | a request that raises is not committed on teardown: the marker and contact tables return to their committed values |
| Models.Store.RemoveUsers | app/models.py:302-310 | exactly the given members are removed, a user listed twice being removed once; removing a non-member is a stale-data error that leaves the members as they were |
| Models.Store.MarkChatsAsRemoved | app/models.py:628-640 | succeeds exactly when the chats are distinct and none is already marked by the user, and then adds exactly the user's marker for each listed chat; otherwise the key violation rolls back to the committed tables |
| Models.Store.UnmarkChatsAsRemoved | app/models.py:642-654 | only this user's markers for the listed chats are deleted; not committed |
| Models.Store.AddContacts | app/models.py:740-752 | an edge to each listed user; existing edges keep their group; new edges get the given group |
| Models.Store.DeleteContacts | app/models.py:754-763 | exactly the edges to the listed users are deleted |
| Models.Store.FlushMessages | app/models.py:1007-1015 | the messages become `Flushed` of the query; committed |
| Models.Store.InsertRoles | app/models.py:130-154 | the given roles, or Admin 0xff and User 0, are installed; other roles keep their values; committed |
| Models.Store.NewChat | app/main/routes.py:268-269 | a new row at the next id, built from the caller's name and group flag, with one fresh stamp for both dates |
| Models.Store.FromJson | app/models.py:312-333 | the named users plus the caller become members; more than one named user makes a group, which needs a name; the requested name is kept (the correction listed under Findings) |
| Models.Store.PostMessage | app/main/routes.py:176-182 | the message is appended unread and stamped now; the chat's `date_modified` is set; committed |
| Models.Store.GetMessages | app/models.py:795-821 | every message of the chat, in creation order, with no read flag changed |
| Models.Store.GetMessagesList | app/models.py:961-983 | the queried messages as summaries, in creation order |
| Routes.UnreadEntries | app/main/routes.py:332-338 | the loop's only error is `get_name`'s; it lists no more entries than chats |
| Routes.UnreadEntriesFails | app/main/routes.py:332-338 | the loop raises exactly when a chat with unread messages cannot be named |
| Routes.UnreadEntriesListed | app/main/routes.py:332-338 | every entry is a walked chat with unread messages, with its unread count and its `get_name` |
| Routes.UnreadEntriesComplete | app/main/routes.py:332-338 | every walked chat with unread messages has an entry |
| Routes.UnreadEntriesEmpty | app/main/routes.py:332-338 | nothing is listed exactly when no walked chat has unread messages |
| Routes.UpdatedChatsNone | app/main/routes.py:343-347 | nothing is returned exactly when no available chat has unread messages |
| Routes.UpdatedChatsEntries | app/main/routes.py:328-347 | the update lists exactly the available chats with a positive unread count |
| Routes.UpdatedChatsCurrentMessages | app/main/routes.py:339-342 | message bodies are sent only for the session's chat, and they are its unread messages |
| Routes.UpdatedChats | app/main/routes.py:328-347 | the only error is `get_name`'s; a returned update lists at least one chat and carries the user's username |
| Routes.GetUpdatedChats | app/main/routes.py:328-347 | the loop computes `UpdatedChats` |
| Routes.Recipient | app/main/routes.py:170-175 | no recipient for a group chat; otherwise another member, and there is none only if the chat has no other member |
| Routes.MessageRowRefusedAsWritten | app/models.py:901-903 | as written, the row `send_message` builds is refused exactly for a group chat and for a chat whose only member is the sender |
| Routes.Recipients | app/main/routes.py:183-186 | exactly the members whose username differs from the sender's |
| Routes.Unmarked | app/main/routes.py:187-188 | each recipient's marker for the chat is deleted, and nothing else is |
| Routes.Pushes | app/main/routes.py:187-197 | the loop's only failure is a chat that cannot be named |
| Routes.PushesGoToRecipients | app/main/routes.py:189-197 | every push is a `chat_updated` to the socket of a connected recipient |
| Routes.PushesStop | app/main/routes.py:187-199 | an exception ends the loop: no later recipient is handled |
| Routes.SendMessageUnhides | app/main/routes.py:183-188 | afterwards the chat is available again to every other member |
| Routes.SendMessageKeepsSenderMarker | app/main/routes.py:183-188 | the sender's own marker stays as it was |
| Routes.SendMessagePair | app/main/routes.py:170-188 | in a two-party chat the recipient is the other member, whose marker for the chat is deleted; the sender's own marker stays as it was |
| Routes.Listed | app/main/routes.py:263 | the existing users whose ids are listed, each once, in id order |
| Routes.NamedEntries | app/main/routes.py:259-262 | the chats shown again, each with its `get_name`; raises exactly when one of them cannot be named |
| Routes.GrownMembers | app/main/routes.py:266-272 | the memberships are the old ones plus `me` and the `j`-th partner in the `j`-th new chat, and nothing else |
| Routes.MarkersMembers | app/main/routes.py:271 | exactly one marker per new chat, for its partner only |
| Routes.FreshChatsRow | app/main/routes.py:268-269 | the `j`-th new row is unnamed, not a group, and stamped at the `j`-th tick after the clock |
| Routes.GrowNext | app/main/routes.py:264-275 | one listed user either changes nothing or gets one new chat, with at most one new entry; the step fails only at a user with `me`'s username |
| Routes.Grow | app/main/routes.py:263-275 | the loop over the listed users; `GrowSound` and `GrowConnects` state what it yields |
| Routes.GrowSound | app/main/routes.py:263-275 | chats are created only for listed users; each entry names its chat after the partner and is numbered after the chats before it; the loop raises only at a partner with `me`'s username |
| Routes.GrowStaysFailed | app/main/routes.py:263-275 | after get_name raises, no later listed user is reached |
| Routes.GetChatMonotone | app/models.py:400-410 | a chat found stays found when memberships and chats are added |
| Routes.GetChatFinds | app/models.py:400-410 | a chat containing all given users is found |
| Routes.GrowConnects | app/main/routes.py:263-272 | when the loop ends normally, `me` shares a chat with every listed user |
| Routes.GrowConnectsLast | app/main/routes.py:264-272 | when the loop ends normally, `me` shares a chat with the last listed user |
| Routes.ConnectedStep | app/main/routes.py:264-272 | a chat `me` shares with a user is still found after one more turn of the loop |
| Routes.GrowOnlyUnconnected | app/main/routes.py:263-272 | a chat is created only for a user who had none with `me`, and at most one per user |
| Routes.NewChatName | app/main/routes.py:273-274 | a new chat is named, for `me`, after the partner's username |
| Routes.IndexName | app/main/routes.py:298-299 | the stored name, else the username of the first member who is not the viewer; raises when there is none |
| Routes.IndexNameIsGetName | app/main/routes.py:298-299 | with unique usernames, the index page names chats as `get_name` does |
| Routes.IndexWalk | app/main/routes.py:297-303 | the walk flushes only when the session's chat is among the walked chats |
| Routes.IndexWalkSound | app/main/routes.py:295-309 | one entry per walked chat, with its name and unread count; the session's chat is counted as 0 and flushed; raises exactly when a chat cannot be named |
| Routes.WalkSoundStep | app/main/routes.py:297-309 | the walk's soundness carries over one more chat |
| Routes.IndexNext | app/main/routes.py:297-309 | one turn of the loop: name, then flush or count |
| Routes.IndexStaysFailed | app/main/routes.py:297-309 | after naming raises, no later chat is reached |
| Routes.Server.Connect | app/main/routes.py:139-150 | the user's socket id replaces any earlier one; their pending update is pushed to the new socket; anonymous users change nothing |
| Routes.Server.Disconnect | app/main/routes.py:153-157 | the user's entry is deleted; a missing entry raises `KeyError` |
| Routes.Server.FlushMessages | app/main/routes.py:212-219 | an existing chat has the user's unread messages flushed; an unknown chat is 404 with nothing changed |
| Routes.Server.RemoveChat | app/main/routes.py:125-136 | an existing chat gains the user's marker and, on success, the session's chat is cleared; a second marker or a missing socket is 404 and leaves the session as it was; an unknown chat changes nothing |
| Routes.Server.ChooseChat | app/main/routes.py:222-248 | choosing the current chat clears it and sends an empty list; choosing another sends all its messages, flushes the user's unread ones and becomes current; a handler that raises leaves the session as it was |
| Routes.Server.NotifyOne | app/main/routes.py:188-191 | the recipient's marker is deleted, then a connected recipient's update is computed |
| Routes.Server.NotifyNext | app/main/routes.py:187-197 | one recipient: its marker is deleted and the pushes grow as `Pushes` says; a failure adds no push |
| Routes.Server.NotifyRecipients | app/main/routes.py:187-197 | the loop pushes exactly `Pushes` and deletes the recipients' markers |
| Routes.Server.Reply | app/main/routes.py:198-209 | on success the sender gets the message back and the request commits; otherwise pending deletes roll back |
| Routes.Server.Spread | app/main/routes.py:183-209 | pushes, markers and reply of `send_message` once the message is stored |
| Routes.Server.Post | app/main/routes.py:170-209 | `send_message` past its guards: message stored, chat stamped, recipients un-hidden and notified |
| Routes.Server.SendMessage | app/main/routes.py:160-209 | an empty stripped text changes nothing; an unknown chat is 404; otherwise the message is stored with its recipient, the others' markers are deleted and they are notified, and the sender is answered |
| Routes.Server.SendMessageAsWritten | app/main/routes.py:160-209 | as written: when no recipient is found the first commit is refused with an integrity violation, and no message, stamp, marker or emit is left; an empty stripped text or an unknown chat changes nothing; otherwise the message is stored, the other members are un-hidden and pushed `Pushes`, and the sender is answered, exactly as in `SendMessage` |
| Routes.Server.Reshown | app/main/routes.py:256-257 | the chats shown again are existing chats |
| Routes.Server.Reshow | app/main/routes.py:256-262 | `me`'s markers for the chats shared with listed users are deleted, and those chats are named |
| Routes.Server.OpenChat | app/main/routes.py:266-274 | a new chat with both users as members, hidden from the partner only, named for `me` |
| Routes.Server.NameNewChat | app/main/routes.py:273-274 | the new chat's `get_name` for `me` |
| Routes.Server.OpenNext | app/main/routes.py:266-275 | one listed user: a chat is created exactly as `GrowNext` says |
| Routes.Server.OpenChats | app/main/routes.py:263-275 | the loop's tables are exactly `Grow`'s chats, memberships and markers |
| Routes.Server.Introduce | app/main/routes.py:263-280 | the loop, then the list of added chats goes to `me`'s socket and the request commits |
| Routes.Server.AddContactsAndChats | app/main/routes.py:251-280 | hidden shared chats are shown again and listed; missing two-party chats are created, hidden from the partner; failures roll back what is not committed |
| Routes.Server.CurrentName | app/main/routes.py:312-316 | the session's chat is named only when it is an existing chat; naming raises exactly when `get_name` finds no name |
| Routes.Server.Index | app/main/routes.py:283-325 | the page lists `IndexWalk`'s entries and the session's chat with its name; the session's chat ends with nothing unread |
| Routes.Server.AfterIndexKeepsStamps | app/main/routes.py:300-301 | the flush on the index page keeps the messages stamped by the clock and in creation order |
| Routes.Server.IndexChats | app/main/routes.py:297-309 | the loop yields `IndexWalk` over the messages as they were; the messages end flushed for the session's chat only, and only if the walk reached it |
| Routes.Server.IndexOne | app/main/routes.py:298-309 | one chat of the loop as `IndexNext` says, which extends the walk by that chat; the session's chat is flushed when it is reached |

## Left out

- `escape` (HTML escaping) is a function parameter of `SendMessage` with no properties assumed.
- Pagination (`paginate`) is not modelled. The index page's list of users and the
  `search_users`, `load_users`, `search_chats` and `load_chats` handlers are left out with it.
  `load_messages` is a thin wrapper over `get_messages`.
- `MAX_STRING_LENGTH` truncation happens only in the search handlers, which are left out.
- `int(data[...])` parsing and its `ValueError`/`TypeError` are not modelled. Handlers take
  integer ids, and an id that names no row is `NotFound`.
- SQL `LIKE` is modelled with `%` and `_` only. It is case-sensitive and has no escape
  character. Usernames are ordered by a binary character comparison, not a database collation.
- Dates are natural numbers on the store's clock. `datetime`, time zones and `isoformat` are left out.
- Authentication, `login_required`, `AnonymousUser` and `before_request`'s `last_seen` update
  are left out. `Connect` and `Disconnect` take `None` for an anonymous user.
- The gevent pool is left out. A spawned `send_update` is the `chat_updated` entry it would
  emit, placed in the outbox at spawn time. So interleaving and delivery order are not modelled.
- Socket.IO delivery is left out. An emit is an outbox entry.
- The Flask session is per user, not per browser session. `session.get('current_chat_id')`
  relies on Python truthiness; since SQL ids start at 1, every stored id is truthy, which
  the 0-based ids here stand in for.
- After a failed commit, SQLAlchemy's session needs an explicit rollback. The model
  rolls back to the committed state instead of modelling a session left unusable.
- `add_contacts_and_chats` collects `new_contacts` but never stores them, so the model
  does not compute them.
- Row orders that SQL leaves open are taken as ascending id order.
- `Routes.Server.Index`: states only the chat list, the session's chat and its name. The
  page's first page of users is not modelled.

## Findings

| source | as written | input that shows it | evidently intended | confidence | as-written member | corrected member |
|---|---|---|---|---|---|---|
| app/models.py:901-903 | `recipient_id` is declared NOT NULL, yet `send_message` stores `recipient=None` for every group chat (app/main/routes.py:170-179) | a message sent to any chat with `is_group_chat` set, or to a non-group chat whose only member is the sender (as `from_json` builds for `users=[me]`) | a nullable recipient, since group messages have no single recipient | medium, not executed | Routes.MessageRowRefusedAsWritten | Models.Store.PostMessage |
| app/models.py:313-333 | `from_json` checks that a group chat has `chat_name` but never assigns it to the new chat | `{'chat_name': 'team', 'users': ['a', 'b']}` builds a group chat with no name | `chat.name = chat_name` | high, not executed | Models.JsonChatLosesName | Models.JsonChat |
