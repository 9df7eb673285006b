/** The socket handlers and the index page of `app/main/routes.py`. One `Server` holds the
    database, `USER_WEBSOCKET_MAPPING` (user id to socket id), each user's
    `session['current_chat_id']` and, in place of network I/O, the list of everything
    passed to `socket_io.emit`. A handler that ends normally commits the database session
    (commit on teardown); one that raises loses every write not yet committed. */
module Routes {
  import opened Wrappers
  import opened Schema
  import opened Seqs
  import opened Text
  import opened Queries
  import opened Models

  /** One chat of a `chat_updated` payload: id, unread count and display name. */
  datatype UnreadEntry = UnreadEntry(chat: ChatId, count: nat, name: string)

  /** The dictionary `get_updated_chats` returns. */
  datatype Update = Update(chats: seq<UnreadEntry>, currentMessages: seq<MessageSummary>, username: string)

  /** `{'chat_name': ..., 'chat_id': ...}` */
  datatype ChatEntry = ChatEntry(name: string, chat: ChatId)

  /** One row of the chat list the index page renders. */
  datatype IndexEntry = IndexEntry(name: string, chat: ChatId, unread: nat)

  /** What the index page is rendered with (the first page of users is not modelled). */
  datatype Page = Page(chats: seq<IndexEntry>, currentChat: Option<ChatId>, currentName: Option<string>)

  /** A `socket_io.emit(event, data, room=sid)`. */
  datatype Emit =
    | SendMessageEvent(room: Sid, text: string, created: nat, sender: string, currentUsername: string, chatName: string)
    | ChooseChatEvent(room: Sid, messages: seq<MessageView>, chatName: string, chat: ChatId, currentUsername: string)
    | RemoveChatEvent(room: Sid, chat: ChatId)
    | AddContactsAndChatsEvent(room: Sid, added: seq<ChatEntry>)
    | ChatUpdatedEvent(room: Sid, data: Update)

  function UnreadCount(messages: seq<Message>, viewer: UserId, c: ChatId): nat {
    |UnreadMessages(messages, viewer, c)|
  }

  // ---------------------------------------------------------------- get_updated_chats

  /** The `chats` list `get_updated_chats` builds while walking `cs`: one entry per chat
      with unread messages; `Err` when `get_name` raises for one of those chats. */
  function UnreadEntries(users: seq<User>, members: Pairs, chats: seq<Chat>, messages: seq<Message>,
                         user: UserId, cs: seq<ChatId>): (r: Result<seq<UnreadEntry>>)
    requires user < |users| && forall k :: 0 <= k < |cs| ==> cs[k] < |chats|
    ensures r.Err? ==> r.failure == NoCounterpart
    ensures r.Ok? ==> |r.value| <= |cs|
    decreases |cs|
  {
    if cs == [] then Ok([])
    else
      var c := cs[|cs| - 1];
      var rest := UnreadEntries(users, members, chats, messages, user, cs[..|cs| - 1]);
      var n := UnreadCount(messages, user, c);
      if rest.Err? || n == 0 then rest
      else
        match GetName(users, members, chats, c, user)
        case None => Err(NoCounterpart)
        case Some(name) => Ok(rest.value + [UnreadEntry(c, n, name)])
  }

  /** The walk fails exactly when a chat of `cs` with unread messages has no name. */
  lemma {:induction false} UnreadEntriesFails(users: seq<User>, members: Pairs, chats: seq<Chat>,
                                 messages: seq<Message>, user: UserId, cs: seq<ChatId>)
    requires user < |users| && forall k :: 0 <= k < |cs| ==> cs[k] < |chats|
    ensures var r := UnreadEntries(users, members, chats, messages, user, cs);
      r.Err? <==> exists c: ChatId :: c in cs && UnreadCount(messages, user, c) > 0
                                     && GetName(users, members, chats, c, user).None?
    decreases |cs|
  {
    if cs != [] {
      var c := cs[|cs| - 1];
      var init := cs[..|cs| - 1];
      assert forall x: ChatId :: x in cs <==> x in init || x == c by {
        assert cs == init + [c];
      }
      UnreadEntriesFails(users, members, chats, messages, user, init);
    }
  }

  /** Every listed entry is a chat of `cs` with unread messages, with its count and its name. */
  lemma {:induction false} UnreadEntriesListed(users: seq<User>, members: Pairs, chats: seq<Chat>,
                                 messages: seq<Message>, user: UserId, cs: seq<ChatId>)
    requires user < |users| && forall k :: 0 <= k < |cs| ==> cs[k] < |chats|
    ensures var r := UnreadEntries(users, members, chats, messages, user, cs);
      r.Ok? ==> forall k :: 0 <= k < |r.value| ==>
        && r.value[k].chat in cs
        && r.value[k].count == UnreadCount(messages, user, r.value[k].chat) > 0
        && GetName(users, members, chats, r.value[k].chat, user) == Some(r.value[k].name)
    decreases |cs|
  {
    if cs != [] {
      var c := cs[|cs| - 1];
      var init := cs[..|cs| - 1];
      assert forall x: ChatId :: x in cs <==> x in init || x == c by {
        assert cs == init + [c];
      }
      UnreadEntriesListed(users, members, chats, messages, user, init);
      var rest := UnreadEntries(users, members, chats, messages, user, init);
      assert rest.Ok? ==> forall k :: 0 <= k < |rest.value| ==> rest.value[k].chat in init;
      var name := GetName(users, members, chats, c, user);
      if rest.Ok? && UnreadCount(messages, user, c) > 0 && name.Some? {
        var out := rest.value + [UnreadEntry(c, UnreadCount(messages, user, c), name.value)];
        assert out[|rest.value|].chat == c;
        assert forall k :: 0 <= k < |rest.value| ==> out[k] == rest.value[k];
      }
    }
  }

  /** Every chat of `cs` with unread messages is listed. */
  lemma {:induction false} UnreadEntriesComplete(users: seq<User>, members: Pairs, chats: seq<Chat>,
                                 messages: seq<Message>, user: UserId, cs: seq<ChatId>)
    requires user < |users| && forall k :: 0 <= k < |cs| ==> cs[k] < |chats|
    ensures var r := UnreadEntries(users, members, chats, messages, user, cs);
      r.Ok? ==> forall c: ChatId :: c in cs && UnreadCount(messages, user, c) > 0 ==>
        exists k :: 0 <= k < |r.value| && r.value[k].chat == c
    decreases |cs|
  {
    if cs != [] {
      var c := cs[|cs| - 1];
      var init := cs[..|cs| - 1];
      assert forall x: ChatId :: x in cs <==> x in init || x == c by {
        assert cs == init + [c];
      }
      UnreadEntriesComplete(users, members, chats, messages, user, init);
      var rest := UnreadEntries(users, members, chats, messages, user, init);
      var name := GetName(users, members, chats, c, user);
      if rest.Ok? && UnreadCount(messages, user, c) > 0 && name.Some? {
        var out := rest.value + [UnreadEntry(c, UnreadCount(messages, user, c), name.value)];
        assert out[|rest.value|].chat == c;
        assert forall k :: 0 <= k < |rest.value| ==> out[k] == rest.value[k];
      }
    }
  }

  /** Nothing is listed exactly when no chat of `cs` has unread messages. */
  lemma {:induction false} UnreadEntriesEmpty(users: seq<User>, members: Pairs, chats: seq<Chat>,
                                 messages: seq<Message>, user: UserId, cs: seq<ChatId>)
    requires user < |users| && forall k :: 0 <= k < |cs| ==> cs[k] < |chats|
    ensures var r := UnreadEntries(users, members, chats, messages, user, cs);
      r == Ok([]) <==> forall c: ChatId :: c in cs ==> UnreadCount(messages, user, c) == 0
    decreases |cs|
  {
    if cs != [] {
      var c := cs[|cs| - 1];
      var init := cs[..|cs| - 1];
      assert forall x: ChatId :: x in cs <==> x in init || x == c by {
        assert cs == init + [c];
      }
      UnreadEntriesEmpty(users, members, chats, messages, user, init);
    }
  }

  /** `current_chat_messages`: the unread messages of the session's chat, when that chat is
      among `cs` and has unread messages; otherwise empty. */
  function CurrentMessages(users: seq<User>, messages: seq<Message>, user: UserId,
                           cs: seq<ChatId>, current: Option<ChatId>): seq<MessageSummary>
  {
    if current.Some? && current.value in cs && UnreadCount(messages, user, current.value) > 0
    then Summaries(users, messages, UnreadMessages(messages, user, current.value))
    else []
  }

  /** `get_updated_chats(user)` with the request's `session['current_chat_id']` as
      `current`: `Ok(None)` for a falsy result, `Err` when it raises. */
  function UpdatedChats(users: seq<User>, members: Pairs, removed: Pairs, chats: seq<Chat>,
                        messages: seq<Message>, user: UserId, current: Option<ChatId>): (r: Result<Option<Update>>)
    requires user < |users|
    ensures r.Err? ==> r.failure == NoCounterpart
    ensures r.Ok? && r.value.Some? ==> r.value.value.chats != [] && r.value.value.username == users[user].username
  {
    var cs := AvailableChats(user, members, removed, chats);
    var entries := UnreadEntries(users, members, chats, messages, user, cs);
    if entries.Err? then Err(entries.failure)
    else if entries.value == [] then Ok(None)
    else Ok(Some(Update(entries.value, CurrentMessages(users, messages, user, cs, current), users[user].username)))
  }

  /** Nothing is pushed exactly when no available chat has unread messages. */
  lemma UpdatedChatsNone(users: seq<User>, members: Pairs, removed: Pairs, chats: seq<Chat>,
                         messages: seq<Message>, user: UserId, current: Option<ChatId>)
    requires user < |users|
    ensures UpdatedChats(users, members, removed, chats, messages, user, current) == Ok(None)
      <==> forall c: ChatId :: c < |chats| && (user, c) in members && (user, c) !in removed ==>
             UnreadCount(messages, user, c) == 0
  {
    var cs := AvailableChats(user, members, removed, chats);
    assert forall c: ChatId :: c in cs <==> c < |chats| && (user, c) in members && (user, c) !in removed;
    UnreadEntriesEmpty(users, members, chats, messages, user, cs);
  }

  /** A pushed update lists exactly the available chats with a positive unread count, each
      with its count and its name. */
  lemma UpdatedChatsEntries(users: seq<User>, members: Pairs, removed: Pairs, chats: seq<Chat>,
                            messages: seq<Message>, user: UserId, current: Option<ChatId>, d: Update)
    requires user < |users|
    requires UpdatedChats(users, members, removed, chats, messages, user, current) == Ok(Some(d))
    ensures d.chats != [] && d.username == users[user].username
    ensures forall k :: 0 <= k < |d.chats| ==>
      && d.chats[k].chat < |chats| && (user, d.chats[k].chat) in members && (user, d.chats[k].chat) !in removed
      && d.chats[k].count == UnreadCount(messages, user, d.chats[k].chat) > 0
      && GetName(users, members, chats, d.chats[k].chat, user) == Some(d.chats[k].name)
    ensures forall c: ChatId :: c < |chats| && (user, c) in members && (user, c) !in removed
                                && UnreadCount(messages, user, c) > 0 ==>
      exists k :: 0 <= k < |d.chats| && d.chats[k].chat == c
  {
    var cs := AvailableChats(user, members, removed, chats);
    assert forall c: ChatId :: c in cs <==> c < |chats| && (user, c) in members && (user, c) !in removed;
    UnreadEntriesListed(users, members, chats, messages, user, cs);
    UnreadEntriesComplete(users, members, chats, messages, user, cs);
  }

  /** Message bodies are pushed only for the session's current chat, and then they are
      exactly that chat's unread messages. */
  lemma UpdatedChatsCurrentMessages(users: seq<User>, members: Pairs, removed: Pairs, chats: seq<Chat>,
                                    messages: seq<Message>, user: UserId, current: Option<ChatId>, d: Update)
    requires user < |users|
    requires UpdatedChats(users, members, removed, chats, messages, user, current) == Ok(Some(d))
    requires d.currentMessages != []
    ensures current.Some? && current.value < |chats|
    ensures (user, current.value) in members && (user, current.value) !in removed
    ensures d.currentMessages == Summaries(users, messages, UnreadMessages(messages, user, current.value))
  {
    var cs := AvailableChats(user, members, removed, chats);
    assert forall c: ChatId :: c in cs <==> c < |chats| && (user, c) in members && (user, c) !in removed;
  }

  /** One step of the walk: the entries of a longer prefix of `cs`. */
  lemma UnreadEntriesStep(users: seq<User>, members: Pairs, chats: seq<Chat>, messages: seq<Message>,
                          user: UserId, cs: seq<ChatId>, k: nat, entries: seq<UnreadEntry>)
    requires user < |users| && k < |cs| && forall j :: 0 <= j < |cs| ==> cs[j] < |chats|
    requires UnreadEntries(users, members, chats, messages, user, cs[..k]) == Ok(entries)
    ensures var n := UnreadCount(messages, user, cs[k]);
            var name := GetName(users, members, chats, cs[k], user);
            UnreadEntries(users, members, chats, messages, user, cs[..k + 1])
              == if n == 0 then Ok(entries)
                 else if name.None? then Err(NoCounterpart)
                 else Ok(entries + [UnreadEntry(cs[k], n, name.value)])
  {
    assert cs[..k + 1][..k] == cs[..k];
  }

  /** One step of the walk for the current chat's messages. */
  lemma CurrentMessagesStep(users: seq<User>, messages: seq<Message>, user: UserId,
                            cs: seq<ChatId>, current: Option<ChatId>, k: nat)
    requires k < |cs| && NoDuplicates(cs)
    ensures CurrentMessages(users, messages, user, cs[..k + 1], current)
         == if current == Some(cs[k]) then CurrentMessages(users, messages, user, [cs[k]], current)
            else CurrentMessages(users, messages, user, cs[..k], current)
  {
    assert forall x: ChatId :: x in cs[..k + 1] <==> x in cs[..k] || x == cs[k] by {
      assert cs[..k + 1] == cs[..k] + [cs[k]];
    }
    assert cs[k] !in cs[..k] by {
      forall j | 0 <= j < k ensures cs[..k][j] != cs[k] {
        assert cs[..k][j] == cs[j];
      }
    }
  }

  /** `get_updated_chats(user)`: walks the available chats, counting each chat's unread
      messages and collecting the current chat's message list. */
  method GetUpdatedChats(db: Store, user: UserId, current: Option<ChatId>) returns (r: Result<Option<Update>>)
    requires db.Valid() && db.Chronicled() && user < |db.users|
    ensures r == UpdatedChats(db.users, db.members, db.removed, db.chats, db.messages, user, current)
  {
    var users, members, chats, messages := db.users, db.members, db.chats, db.messages;
    var cs := AvailableChats(user, members, db.removed, chats);
    var entries: seq<UnreadEntry> := [];
    var currentMessages: seq<MessageSummary> := [];
    var k := 0;
    while k < |cs|
      invariant 0 <= k <= |cs|
      invariant UnreadEntries(users, members, chats, messages, user, cs[..k]) == Ok(entries)
      invariant currentMessages == CurrentMessages(users, messages, user, cs[..k], current)
    {
      UnreadEntriesStep(users, members, chats, messages, user, cs, k, entries);
      CurrentMessagesStep(users, messages, user, cs, current, k);
      var unread := UnreadMessages(messages, user, cs[k]);
      var count := |unread|;
      if count > 0 {
        var name := GetName(users, members, chats, cs[k], user);
        if name.None? {
          assert cs[k] in cs;
          UnreadEntriesFails(users, members, chats, messages, user, cs);
          return Err(NoCounterpart);
        }
        entries := entries + [UnreadEntry(cs[k], count, name.value)];
        if current == Some(cs[k]) {
          currentMessages := db.GetMessagesList(unread);
        }
      }
      k := k + 1;
    }
    assert cs[..k] == cs;
    if entries == [] {
      r := Ok(None);
    } else {
      r := Ok(Some(Update(entries, currentMessages, users[user].username)));
    }
  }

  // ---------------------------------------------------------------- send_message

  /** The `recipient` stored with a message: none for a group chat, otherwise the first
      member that is not the sender (none when the sender is alone in the chat). */
  function Recipient(users: seq<User>, members: Pairs, chats: seq<Chat>, me: UserId, c: ChatId): (r: Option<UserId>)
    requires c < |chats|
    ensures chats[c].isGroup ==> r.None?
    ensures r.Some? ==> r.value < |users| && (r.value, c) in members && r.value != me
    ensures !chats[c].isGroup && r.None? ==>
      forall u: UserId :: u < |users| && (u, c) in members ==> u == me
  {
    if chats[c].isGroup then None
    else First(ChatUsers(|users|, members, c), (u: UserId) => u != me)
  }

  /** As written (`recipient_id` NOT NULL), the row `send_message` builds for chat `c` is
      refused exactly when no recipient is found: in a group chat, and in a two-party chat
      whose only member is the sender (as `Chat.from_json` builds for `users=[me]`). */
  lemma MessageRowRefusedAsWritten(users: seq<User>, members: Pairs, chats: seq<Chat>, me: UserId, c: ChatId,
                                   text: string, now: nat)
    requires c < |chats|
    ensures !MessageRowAcceptedAsWritten(Message(c, me, Recipient(users, members, chats, me, c), text, now, false))
      <==> chats[c].isGroup || forall u: UserId :: u < |users| && (u, c) in members ==> u == me
  {
    if !chats[c].isGroup && forall u: UserId :: u < |users| && (u, c) in members ==> u == me {
      var us := ChatUsers(|users|, members, c);
      assert forall x :: x in us ==> x == me;
    }
  }

  /** `chat.users.filter(User.username != current_user.username).all()`: every member but
      the sender, in id order. */
  function Recipients(users: seq<User>, members: Pairs, me: UserId, c: ChatId): (r: seq<UserId>)
    requires me < |users|
    ensures forall u: UserId :: u in r <==> u < |users| && (u, c) in members && users[u].username != users[me].username
    ensures forall k :: 0 <= k < |r| ==> r[k] < |users|
  {
    var p := (u: UserId) => u < |users| && users[u].username != users[me].username;
    FilterMembers(ChatUsers(|users|, members, c), p);
    Filter(ChatUsers(|users|, members, c), p)
  }

  /** The removal markers once each of `rs` has had its marker for `c` deleted. */
  function Unmarked(removed: Pairs, rs: seq<UserId>, c: ChatId): (r: Pairs)
    ensures forall p :: p in r <==> p in removed && !(p.1 == c && p.0 in rs)
  {
    removed - (set u | u in rs :: (u, c))
  }

  /** The `send_update` workers spawned so far, and the exception that ended the loop. */
  datatype Spawned = Spawned(pushes: seq<Emit>, failure: Option<Failure>)

  /** The pushes of `send_message`'s loop over the recipients `rs` of chat `c`: each
      recipient's marker is deleted first, and an update is spawned for a recipient with a
      socket entry when `get_updated_chats` has something to send. `removed` is the marker
      table before the loop. */
  function Pushes(users: seq<User>, members: Pairs, removed: Pairs, chats: seq<Chat>, messages: seq<Message>,
                  c: ChatId, rs: seq<UserId>, sockets: map<UserId, Sid>, current: Option<ChatId>): (r: Spawned)
    requires forall k :: 0 <= k < |rs| ==> rs[k] < |users|
    ensures r.failure.Some? ==> r.failure.value == NoCounterpart
    decreases |rs|
  {
    if rs == [] then Spawned([], None)
    else
      var init := rs[..|rs| - 1];
      var u := rs[|rs| - 1];
      var before := Pushes(users, members, removed, chats, messages, c, init, sockets, current);
      if before.failure.Some? || u !in sockets then before
      else
        match UpdatedChats(users, members, Unmarked(removed, rs, c), chats, messages, u, current)
        case Err(f) => Spawned(before.pushes, Some(f))
        case Ok(None) => before
        case Ok(Some(d)) =>
          Spawned(before.pushes + [ChatUpdatedEvent(sockets[u], d)], None)
  }

  /** Every emit is a `chat_updated` push to the socket of a connected user of `rs`. */
  ghost predicate PushedTo(ps: seq<Emit>, rs: seq<UserId>, sockets: map<UserId, Sid>) {
    forall k :: 0 <= k < |ps| ==>
      ps[k].ChatUpdatedEvent? && exists u: UserId :: u in rs && u in sockets && ps[k].room == sockets[u]
  }

  /** Updates go only to the sockets of connected recipients, so never to the sender. */
  lemma {:induction false} PushesGoToRecipients(users: seq<User>, members: Pairs, removed: Pairs, chats: seq<Chat>,
                                                messages: seq<Message>, c: ChatId, rs: seq<UserId>,
                                                sockets: map<UserId, Sid>, current: Option<ChatId>)
    requires forall k :: 0 <= k < |rs| ==> rs[k] < |users|
    ensures PushedTo(Pushes(users, members, removed, chats, messages, c, rs, sockets, current).pushes, rs, sockets)
    decreases |rs|
  {
    if rs != [] {
      var init := rs[..|rs| - 1];
      var u := rs[|rs| - 1];
      assert rs == init + [u];
      PushesGoToRecipients(users, members, removed, chats, messages, c, init, sockets, current);
      var before := Pushes(users, members, removed, chats, messages, c, init, sockets, current).pushes;
      var after := Pushes(users, members, removed, chats, messages, c, rs, sockets, current).pushes;
      forall k | 0 <= k < |after|
        ensures after[k].ChatUpdatedEvent? && exists v: UserId :: v in rs && v in sockets && after[k].room == sockets[v]
      {
        if k < |before| {
          assert after[k] == before[k];
          var v: UserId :| v in init && v in sockets && before[k].room == sockets[v];
          assert v in rs;
        } else {
          assert after[k].room == sockets[u];
        }
      }
      assert PushedTo(after, rs, sockets);
    }
  }

  /** One step of the loop: the pushes of a longer prefix of recipients. */
  lemma PushesStep(users: seq<User>, members: Pairs, removed: Pairs, chats: seq<Chat>, messages: seq<Message>,
                   c: ChatId, rs: seq<UserId>, sockets: map<UserId, Sid>, current: Option<ChatId>, k: nat)
    requires k < |rs| && forall j :: 0 <= j < |rs| ==> rs[j] < |users|
    ensures var before := Pushes(users, members, removed, chats, messages, c, rs[..k], sockets, current);
            var u := rs[k];
            var data := UpdatedChats(users, members, Unmarked(removed, rs[..k + 1], c), chats, messages, u, current);
            Pushes(users, members, removed, chats, messages, c, rs[..k + 1], sockets, current)
              == if before.failure.Some? || u !in sockets then before
                 else if data.Err? then Spawned(before.pushes, Some(data.failure))
                 else if data.value.None? then before
                 else Spawned(before.pushes + [ChatUpdatedEvent(sockets[u], data.value.value)], None)
  {
    assert rs[..k + 1][..k] == rs[..k];
  }

  /** What one recipient adds to the spawned pushes, given the update computed for them. */
  function Advance(pushes: seq<Emit>, data: Result<Option<Update>>, room: Sid): Spawned {
    if data.Err? then Spawned(pushes, Some(data.failure))
    else if data.value.None? then Spawned(pushes, None)
    else Spawned(pushes + [ChatUpdatedEvent(room, data.value.value)], None)
  }

  /** The step of the loop in the form the loop takes it. */
  lemma PushesAdvance(users: seq<User>, members: Pairs, removed: Pairs, chats: seq<Chat>, messages: seq<Message>,
                      c: ChatId, rs: seq<UserId>, sockets: map<UserId, Sid>, current: Option<ChatId>, k: nat,
                      pushes: seq<Emit>, data: Result<Option<Update>>)
    requires k < |rs| && forall j :: 0 <= j < |rs| ==> rs[j] < |users|
    requires Pushes(users, members, removed, chats, messages, c, rs[..k], sockets, current) == Spawned(pushes, None)
    requires rs[k] in sockets ==>
      data == UpdatedChats(users, members, Unmarked(removed, rs[..k + 1], c), chats, messages, rs[k], current)
    requires rs[k] !in sockets ==> data == Ok(None)
    ensures data.Ok? && data.value.Some? ==> rs[k] in sockets
    ensures Pushes(users, members, removed, chats, messages, c, rs[..k + 1], sockets, current)
         == Advance(pushes, data, if rs[k] in sockets then sockets[rs[k]] else [])
  {
    PushesStep(users, members, removed, chats, messages, c, rs, sockets, current, k);
  }

  /** An exception ends the loop: no recipient after it is unmarked or notified. */
  lemma {:induction false} PushesStop(users: seq<User>, members: Pairs, removed: Pairs, chats: seq<Chat>, messages: seq<Message>,
                                      c: ChatId, rs: seq<UserId>, sockets: map<UserId, Sid>, current: Option<ChatId>, k: nat)
    requires k <= |rs| && forall j :: 0 <= j < |rs| ==> rs[j] < |users|
    requires Pushes(users, members, removed, chats, messages, c, rs[..k], sockets, current).failure.Some?
    ensures Pushes(users, members, removed, chats, messages, c, rs, sockets, current)
         == Pushes(users, members, removed, chats, messages, c, rs[..k], sockets, current)
    decreases |rs|
  {
    if k < |rs| {
      var init := rs[..|rs| - 1];
      assert init[..k] == rs[..k];
      PushesStop(users, members, removed, chats, messages, c, init, sockets, current, k);
    } else {
      assert rs[..k] == rs;
    }
  }

  /** After `send_message`, the chat is back in the available list of every member whose
      username is not the sender's. */
  lemma SendMessageUnhides(users: seq<User>, members: Pairs, removed: Pairs, chats: seq<Chat>,
                           me: UserId, c: ChatId, u: UserId)
    requires me < |users| && u < |users| && c < |chats|
    requires (u, c) in members && users[u].username != users[me].username
    ensures c in AvailableChats(u, members, Unmarked(removed, Recipients(users, members, me, c), c), chats)
  {
    assert u in Recipients(users, members, me, c);
  }

  /** ... and the sender's own marker, if any, stays. */
  lemma SendMessageKeepsSenderMarker(users: seq<User>, members: Pairs, removed: Pairs, me: UserId, c: ChatId)
    requires me < |users|
    ensures (me, c) in Unmarked(removed, Recipients(users, members, me, c), c) <==> (me, c) in removed
  {
  }

  /** In a two-party chat the stored recipient is the other member, who has the chat
      un-hidden, while the sender's own marker stays as it was. */
  lemma SendMessagePair(users: seq<User>, members: Pairs, removed: Pairs, chats: seq<Chat>,
                         me: UserId, other: UserId, c: ChatId)
    requires c < |chats| && !chats[c].isGroup && me < |users| && other < |users|
    requires users[other].username != users[me].username
    requires forall u: UserId :: u < |users| ==> ((u, c) in members <==> u == me || u == other)
    ensures Recipient(users, members, chats, me, c) == Some(other)
    ensures (other, c) !in Unmarked(removed, Recipients(users, members, me, c), c)
    ensures (me, c) in Unmarked(removed, Recipients(users, members, me, c), c) <==> (me, c) in removed
  {
    assert (other, c) in members;
    var rs := Recipients(users, members, me, c);
    assert other in rs && me !in rs;
  }

  // ---------------------------------------------------------------- add_contacts_and_chats

  /** `User.query.filter(User.id.in_(user_ids))`: the existing users whose ids are listed,
      in id order. */
  function Listed(ids: seq<int>, n: nat): (r: seq<UserId>)
    ensures forall u: UserId :: u in r <==> u < n && u in ids
    ensures forall k :: 0 <= k < |r| ==> r[k] < n
    ensures Increasing(r)
  {
    var p := (u: UserId) => u in ids;
    RangeIncreasing(n);
    FilterIncreasing(Range(n), p);
    FilterMembers(Range(n), p);
    Filter(Range(n), p)
  }

  /** The `added_chats` entries of the chats `cs` shown again, each named for `me`; `None`
      when `get_name` raises for one of them. */
  function NamedEntries(users: seq<User>, members: Pairs, chats: seq<Chat>, me: UserId, cs: seq<ChatId>)
    : (r: Option<seq<ChatEntry>>)
    requires me < |users| && forall k :: 0 <= k < |cs| ==> cs[k] < |chats|
    ensures r.None? <==> exists k :: 0 <= k < |cs| && GetName(users, members, chats, cs[k], me).None?
    ensures r.Some? ==> |r.value| == |cs|
    ensures r.Some? ==> forall k :: 0 <= k < |cs| ==>
      r.value[k] == ChatEntry(GetName(users, members, chats, cs[k], me).value, cs[k])
  {
    if cs == [] then Some([])
    else
      var name := GetName(users, members, chats, cs[0], me);
      var rest := NamedEntries(users, members, chats, me, cs[1..]);
      if name.None? then None
      else if rest.None? then
        var k :| 0 <= k < |cs[1..]| && GetName(users, members, chats, cs[1..][k], me).None?;
        assert GetName(users, members, chats, cs[k + 1], me).None?;
        None
      else
        assert forall k :: 1 <= k < |cs| ==> cs[k] == cs[1..][k - 1];
        Some([ChatEntry(name.value, cs[0])] + rest.value)
  }

  /** What the loop over the listed users leaves behind: the users a chat was created for,
      in order (the `j`-th one gets chat `n + j`), the `added_chats` entries of those chats,
      and whether `get_name` raised for the last of them. */
  datatype Growth = Growth(partners: seq<UserId>, entries: seq<ChatEntry>, failed: bool)

  /** The memberships once chat `n + j` has been created for `me` and `partners[j]`. */
  function Grown(members: Pairs, n: nat, me: UserId, partners: seq<UserId>): Pairs {
    if partners == [] then members
    else Grown(members, n, me, partners[..|partners| - 1]) + {(me, n + |partners| - 1), (partners[|partners| - 1], n + |partners| - 1)}
  }

  /** The memberships are the old ones plus `me` and `partners[j]` in chat `n + j`. */
  lemma {:induction false} GrownMembers(members: Pairs, n: nat, me: UserId, partners: seq<UserId>)
    ensures forall p :: p in Grown(members, n, me, partners) <==>
      p in members || (n <= p.1 < n + |partners| && (p.0 == me || p.0 == partners[p.1 - n]))
    decreases |partners|
  {
    if partners != [] {
      var last := |partners| - 1;
      GrownMembers(members, n, me, partners[..last]);
      assert forall j :: 0 <= j < last ==> partners[..last][j] == partners[j];
    }
  }

  /** Chat `n + j` has `me` and `partners[j]` as members. */
  lemma GrownHas(members: Pairs, n: nat, me: UserId, partners: seq<UserId>, j: nat)
    requires j < |partners|
    ensures (me, n + j) in Grown(members, n, me, partners)
    ensures (partners[j], n + j) in Grown(members, n, me, partners)
  {
    GrownMembers(members, n, me, partners);
  }

  /** Opening one more chat loses no membership. */
  lemma GrownExtends(members: Pairs, n: nat, me: UserId, partners: seq<UserId>, u: UserId)
    ensures Grown(members, n, me, partners) <= Grown(members, n, me, partners + [u])
  {
    assert (partners + [u])[..|partners|] == partners;
  }

  /** No membership is lost. */
  lemma GrownGrows(members: Pairs, n: nat, me: UserId, partners: seq<UserId>)
    ensures members <= Grown(members, n, me, partners)
  {
    GrownMembers(members, n, me, partners);
  }

  /** The removal markers that hide chat `n + j` from `partners[j]`. */
  function Markers(n: nat, partners: seq<UserId>): Pairs {
    if partners == [] then {}
    else Markers(n, partners[..|partners| - 1]) + {(partners[|partners| - 1], n + |partners| - 1)}
  }

  /** There is exactly one marker per new chat, for its partner. */
  lemma {:induction false} MarkersMembers(n: nat, partners: seq<UserId>)
    ensures forall p :: p in Markers(n, partners) <==> n <= p.1 < n + |partners| && p.0 == partners[p.1 - n]
    decreases |partners|
  {
    if partners != [] {
      var last := |partners| - 1;
      MarkersMembers(n, partners[..last]);
      assert forall j :: 0 <= j < last ==> partners[..last][j] == partners[j];
    }
  }

  /** The rows of `k` chats created one after another from clock value `clock`: no name,
      not a group, created and modified at their own tick. */
  function FreshChats(clock: nat, k: nat): (r: seq<Chat>)
    ensures |r| == k
  {
    if k == 0 then [] else FreshChats(clock, k - 1) + [Chat(None, false, clock + k, clock + k)]
  }

  /** The `j`-th new row is unnamed, not a group, and stamped at tick `clock + j + 1`. */
  lemma {:induction false} FreshChatsRow(clock: nat, k: nat, j: nat)
    requires j < k
    ensures FreshChats(clock, k)[j] == Chat(None, false, clock + j + 1, clock + j + 1)
  {
    if j < k - 1 {
      FreshChatsRow(clock, k - 1, j);
    }
  }


  /** One listed user `u`, after the users before it left `g`: a user who has no chat with
      `me` yet (looked up with `Chat.get_chat([current_user, user])`, which sees the chats
      created for earlier users) gets a new chat; its name for `me` is the user's username,
      and `get_name` raises when that username is `me`'s own. */
  function GrowNext(users: seq<User>, members: Pairs, n: nat, me: UserId, g: Growth, u: UserId): (r: Growth)
    requires me < |users| && u < |users|
    ensures r == g || (r.partners == g.partners + [u] && |r.entries| <= |g.entries| + 1)
    ensures r.failed && !g.failed ==> users[u].username == users[me].username
  {
    if GetChat([me, u], Grown(members, n, me, g.partners), n + |g.partners|).Some? then g
    else if users[u].username == users[me].username then Growth(g.partners + [u], g.entries, true)
    else Growth(g.partners + [u], g.entries + [ChatEntry(users[u].username, n + |g.partners|)], false)
  }

  /** The loop of `add_contacts_and_chats` over the listed users `us`, from memberships
      `members` over `n` chats; it stops once `get_name` has raised. */
  function Grow(users: seq<User>, members: Pairs, n: nat, me: UserId, us: seq<UserId>): (r: Growth)
    requires me < |users| && forall k :: 0 <= k < |us| ==> us[k] < |users|
    decreases |us|
  {
    if us == [] then Growth([], [], false)
    else
      var g := Grow(users, members, n, me, us[..|us| - 1]);
      if g.failed then g else GrowNext(users, members, n, me, g, us[|us| - 1])
  }

  /** What a run of the loop over `us` may yield: chats are opened only for listed users,
      each entry is named after its partner and numbered after the chats before it, and the
      run fails only at a partner whose username is `me`'s own. */
  ghost predicate GrowthSound(users: seq<User>, n: nat, me: UserId, us: seq<UserId>, g: Growth)
    requires me < |users|
  {
    && (forall u :: u in g.partners ==> u in us)
    && (forall k :: 0 <= k < |g.partners| ==> g.partners[k] < |users|)
    && |g.entries| == (if g.failed then |g.partners| - 1 else |g.partners|)
    && (g.failed ==> |g.partners| > 0 && users[g.partners[|g.partners| - 1]].username == users[me].username)
    && (forall j :: 0 <= j < |g.entries| ==>
          users[g.partners[j]].username != users[me].username &&
          g.entries[j] == ChatEntry(users[g.partners[j]].username, n + j))
  }

  lemma {:induction false} GrowSound(users: seq<User>, members: Pairs, n: nat, me: UserId, us: seq<UserId>)
    requires me < |users| && forall k :: 0 <= k < |us| ==> us[k] < |users|
    ensures GrowthSound(users, n, me, us, Grow(users, members, n, me, us))
    decreases |us|
  {
    if us != [] {
      GrowSound(users, members, n, me, us[..|us| - 1]);
    }
  }

  /** One step of `Grow`, in the form the loop takes it. */
  lemma GrowStep(users: seq<User>, members: Pairs, n: nat, me: UserId, us: seq<UserId>, k: nat, g: Growth)
    requires me < |users| && k < |us| && forall j :: 0 <= j < |us| ==> us[j] < |users|
    requires g == Grow(users, members, n, me, us[..k]) && !g.failed
    ensures Grow(users, members, n, me, us[..k + 1]) == GrowNext(users, members, n, me, g, us[k])
  {
    assert us[..k + 1][..k] == us[..k];
  }

  /** Opening the chat for one more partner `u` appends its row, stamped at the next tick,
      adds `me` and `u` as its members and hides it from `u`. */
  lemma OpenedStep(members0: Pairs, chats0: seq<Chat>, clock0: nat, removed0: Pairs,
                   me: UserId, partners: seq<UserId>, u: UserId)
    ensures chats0 + FreshChats(clock0, |partners| + 1)
         == chats0 + FreshChats(clock0, |partners|) + [Chat(None, false, clock0 + |partners| + 1, clock0 + |partners| + 1)]
    ensures Grown(members0, |chats0|, me, partners + [u])
         == Grown(members0, |chats0|, me, partners) + {(me, |chats0| + |partners|), (u, |chats0| + |partners|)}
    ensures removed0 + Markers(|chats0|, partners + [u])
         == removed0 + Markers(|chats0|, partners) + {(u, |chats0| + |partners|)}
  {
    assert (partners + [u])[..|partners|] == partners;
  }

  /** Once `get_name` has raised, the rest of the listed users are not reached. */
  lemma {:induction false} GrowStaysFailed(users: seq<User>, members: Pairs, n: nat, me: UserId, us: seq<UserId>, k: nat)
    requires me < |users| && forall j :: 0 <= j < |us| ==> us[j] < |users|
    requires k <= |us| && Grow(users, members, n, me, us[..k]).failed
    ensures Grow(users, members, n, me, us) == Grow(users, members, n, me, us[..k])
    decreases |us| - k
  {
    if k < |us| {
      assert us[..k + 1][..k] == us[..k];
      GrowStaysFailed(users, members, n, me, us, k + 1);
    } else {
      assert us[..k] == us;
    }
  }

  /** `Chat.get_chat` keeps finding a chat once more memberships and more chats exist. */
  lemma GetChatMonotone(us: seq<UserId>, members: Pairs, n: nat, more: Pairs, m: nat)
    requires members <= more && n <= m && GetChat(us, members, n).Some?
    ensures GetChat(us, more, m).Some?
  {
    GetChatFirst(us, members, n);
    GetChatFirst(us, more, m);
    var c := GetChat(us, members, n).value;
    assert ContainsAll(more, us, c);
  }

  /** `me` and `u` share one of the chats there are once the loop over `us` is done. */
  ghost predicate Connected(users: seq<User>, members: Pairs, n: nat, me: UserId, us: seq<UserId>, u: UserId)
    requires me < |users| && forall k :: 0 <= k < |us| ==> us[k] < |users|
  {
    var g := Grow(users, members, n, me, us);
    GetChat([me, u], Grown(members, n, me, g.partners), n + |g.partners|).Some?
  }

  /** `Chat.get_chat` finds a chat once one of the first `n` has all of `us` as members. */
  lemma GetChatFinds(us: seq<UserId>, members: Pairs, n: nat, c: ChatId)
    requires c < n && ContainsAll(members, us, c)
    ensures GetChat(us, members, n).Some?
  {
    GetChatFirst(us, members, n);
  }

  /** When the loop gets past the last listed user, `me` shares a chat with that user. */
  lemma GrowConnectsLast(users: seq<User>, members: Pairs, n: nat, me: UserId, us: seq<UserId>)
    requires me < |users| && forall k :: 0 <= k < |us| ==> us[k] < |users|
    requires us != [] && !Grow(users, members, n, me, us).failed
    ensures Connected(users, members, n, me, us, us[|us| - 1])
  {
    var g := Grow(users, members, n, me, us);
    var h := Grow(users, members, n, me, us[..|us| - 1]);
    var last := us[|us| - 1];
    assert !h.failed && g == GrowNext(users, members, n, me, h, last);
    if GetChat([me, last], Grown(members, n, me, h.partners), n + |h.partners|).None? {
      assert g.partners == h.partners + [last];
      var grown := Grown(members, n, me, g.partners);
      GrownHas(members, n, me, g.partners, |h.partners|);
      assert ContainsAll(grown, [me, last], n + |h.partners|);
      GetChatFinds([me, last], grown, n + |g.partners|, n + |h.partners|);
    } else {
      assert g == h;
    }
  }

  /** When the loop ends normally, `me` shares a chat with every listed user. */
  lemma {:induction false} GrowConnects(users: seq<User>, members: Pairs, n: nat, me: UserId, us: seq<UserId>, k: nat)
    requires me < |users| && forall j :: 0 <= j < |us| ==> us[j] < |users|
    requires !Grow(users, members, n, me, us).failed && k < |us|
    ensures Connected(users, members, n, me, us, us[k])
    decreases |us|
  {
    if k < |us| - 1 {
      var init := us[..|us| - 1];
      var h := Grow(users, members, n, me, init);
      GrowConnects(users, members, n, me, init, k);
      assert !h.failed && Grow(users, members, n, me, us) == GrowNext(users, members, n, me, h, us[|us| - 1]);
      ConnectedStep(users, members, n, me, h, us[|us| - 1], init[k]);
    } else {
      GrowConnectsLast(users, members, n, me, us);
    }
  }

  /** A chat `me` shares with `u` is still there after one more turn of the loop. */
  lemma ConnectedStep(users: seq<User>, members: Pairs, n: nat, me: UserId, h: Growth, last: UserId, u: UserId)
    requires me < |users| && last < |users|
    requires GetChat([me, u], Grown(members, n, me, h.partners), n + |h.partners|).Some?
    ensures var g := GrowNext(users, members, n, me, h, last);
      GetChat([me, u], Grown(members, n, me, g.partners), n + |g.partners|).Some?
  {
    var g := GrowNext(users, members, n, me, h, last);
    if g != h {
      GrownExtends(members, n, me, h.partners, last);
      GetChatMonotone([me, u], Grown(members, n, me, h.partners), n + |h.partners|,
                      Grown(members, n, me, g.partners), n + |g.partners|);
    }
  }

  /** A chat is created only for a user who had no chat with `me` before the request, and
      never twice for one user. */
  lemma {:induction false} GrowOnlyUnconnected(users: seq<User>, members: Pairs, n: nat, me: UserId, us: seq<UserId>)
    requires me < |users| && forall k :: 0 <= k < |us| ==> us[k] < |users|
    ensures forall u :: u in Grow(users, members, n, me, us).partners ==> GetChat([me, u], members, n).None?
    ensures NoDuplicates(Grow(users, members, n, me, us).partners)
    decreases |us|
  {
    if us != [] {
      var g := Grow(users, members, n, me, us);
      var init := us[..|us| - 1];
      var h := Grow(users, members, n, me, init);
      var u := us[|us| - 1];
      GrowOnlyUnconnected(users, members, n, me, init);
      var before := Grown(members, n, me, h.partners);
      if g != h {
        assert g.partners == h.partners + [u];
        assert GetChat([me, u], before, n + |h.partners|).None?;
        if GetChat([me, u], members, n).Some? {
          GrownGrows(members, n, me, h.partners);
          GetChatMonotone([me, u], members, n, before, n + |h.partners|);
        }
        forall j | 0 <= j < |h.partners| ensures h.partners[j] != u {
          GrownHas(members, n, me, h.partners, j);
          assert ContainsAll(before, [me, h.partners[j]], n + j);
          GetChatFirst([me, u], before, n + |h.partners|);
        }
      }
    }
  }

  /** A nameless chat whose members are `me` and `u` is named `u`'s username for `me`, and
      `get_name` fails when the two usernames are equal. */
  lemma NewChatName(users: seq<User>, members: Pairs, chats: seq<Chat>, c: ChatId, me: UserId, u: UserId)
    requires c < |chats| && !HasName(chats[c]) && me < |users| && u < |users|
    requires forall v: UserId :: (v, c) in members <==> v == me || v == u
    ensures GetName(users, members, chats, c, me) ==
      if users[u].username == users[me].username then None else Some(users[u].username)
  {
    if users[u].username != users[me].username {
      GetNameOfPair(users, members, chats, c, me, u);
    }
  }

  // ---------------------------------------------------------------- index

  /** `chat.name or recipient.username`, with `recipient` the first other member by id;
      `None` where the source reads the `username` of `None`. */
  function IndexName(users: seq<User>, members: Pairs, chats: seq<Chat>, c: ChatId, me: UserId): (r: Option<string>)
    requires c < |chats|
    ensures HasName(chats[c]) ==> r == chats[c].name
    ensures !HasName(chats[c]) ==> (r.Some? <==> exists u: UserId :: u < |users| && (u, c) in members && u != me)
  {
    if HasName(chats[c]) then chats[c].name
    else
      var other := First(ChatUsers(|users|, members, c), (u: UserId) => u != me);
      if other.Some? then Some(users[other.value].username) else None
  }

  /** With unique usernames, the index page names a chat exactly as `Chat.get_name` does. */
  lemma IndexNameIsGetName(users: seq<User>, members: Pairs, chats: seq<Chat>, c: ChatId, me: UserId)
    requires c < |chats| && me < |users| && UniqueUsernames(users)
    ensures IndexName(users, members, chats, c, me) == GetName(users, members, chats, c, me)
  {
    var s := ChatUsers(|users|, members, c);
    var p := (u: UserId) => u != me;
    var q := (u: UserId) => u < |users| && users[u].username != users[me].username;
    forall x | x in s ensures p(x) == q(x) {
      if x != me {
        assert users[x].username != users[me].username by {
          if x < me {
            assert Username(users, x) != Username(users, me);
          } else {
            assert Username(users, me) != Username(users, x);
          }
        }
      }
    }
    FirstCongruent(s, p, q);
  }

  /** The walk of `index` over the chats `cs` it lists: the entries so far, whether naming
      a chat raised, and whether the session's chat was flushed on the way. */
  datatype IndexRun = IndexRun(entries: seq<IndexEntry>, failed: bool, flushed: bool)

  /** The loop of `index`: each chat is named (an error stops the walk); the session's
      chat has its unread messages flushed and is listed with no unread message, every
      other chat with its unread count. */
  function IndexWalk(users: seq<User>, members: Pairs, chats: seq<Chat>, messages: seq<Message>,
                     me: UserId, current: Option<ChatId>, cs: seq<ChatId>): (r: IndexRun)
    requires forall k :: 0 <= k < |cs| ==> cs[k] < |chats|
    ensures r.flushed ==> current.Some? && current.value in cs
    decreases |cs|
  {
    if cs == [] then IndexRun([], false, false)
    else
      var run := IndexWalk(users, members, chats, messages, me, current, cs[..|cs| - 1]);
      if run.failed then run else IndexNext(users, members, chats, messages, me, current, run, cs[|cs| - 1])
  }

  /** What the walk over `cs` yields: it fails exactly when some chat cannot be named;
      otherwise it has one entry per chat, with the chat's name and its unread count (none
      for the session's chat), and it has flushed when the session's chat is among `cs`. */
  ghost predicate WalkSound(users: seq<User>, members: Pairs, chats: seq<Chat>, messages: seq<Message>,
                            me: UserId, current: Option<ChatId>, cs: seq<ChatId>, r: IndexRun)
    requires forall k :: 0 <= k < |cs| ==> cs[k] < |chats|
  {
    && (r.failed <==> exists k :: 0 <= k < |cs| && IndexName(users, members, chats, cs[k], me).None?)
    && (!r.failed ==> |r.entries| == |cs|)
    && (!r.failed ==> forall k :: 0 <= k < |cs| ==>
          && r.entries[k].chat == cs[k]
          && Some(r.entries[k].name) == IndexName(users, members, chats, cs[k], me)
          && r.entries[k].unread == if current == Some(cs[k]) then 0 else UnreadCount(messages, me, cs[k]))
    && (!r.failed && current.Some? && current.value in cs ==> r.flushed)
  }

  lemma {:induction false} IndexWalkSound(users: seq<User>, members: Pairs, chats: seq<Chat>, messages: seq<Message>,
                                          me: UserId, current: Option<ChatId>, cs: seq<ChatId>)
    requires forall k :: 0 <= k < |cs| ==> cs[k] < |chats|
    ensures WalkSound(users, members, chats, messages, me, current, cs,
                      IndexWalk(users, members, chats, messages, me, current, cs))
    decreases |cs|
  {
    if cs != [] {
      var init, last := cs[..|cs| - 1], cs[|cs| - 1];
      IndexWalkSound(users, members, chats, messages, me, current, init);
      var run := IndexWalk(users, members, chats, messages, me, current, init);
      assert cs == init + [last];
      if run.failed {
        var k :| 0 <= k < |init| && IndexName(users, members, chats, init[k], me).None?;
        assert IndexName(users, members, chats, cs[k], me).None?;
      } else {
        WalkSoundStep(users, members, chats, messages, me, current, init, last, run);
      }
    }
  }

  /** The walk stays sound over one more chat `last` once it has not failed before it. */
  lemma WalkSoundStep(users: seq<User>, members: Pairs, chats: seq<Chat>, messages: seq<Message>,
                      me: UserId, current: Option<ChatId>, init: seq<ChatId>, last: ChatId, run: IndexRun)
    requires last < |chats| && forall k :: 0 <= k < |init| ==> init[k] < |chats|
    requires WalkSound(users, members, chats, messages, me, current, init, run) && !run.failed
    ensures WalkSound(users, members, chats, messages, me, current, init + [last],
                      IndexNext(users, members, chats, messages, me, current, run, last))
  {
    var cs := init + [last];
    var r := IndexNext(users, members, chats, messages, me, current, run, last);
    assert forall k :: 0 <= k < |init| ==> init[k] == cs[k];
    if r.failed {
      assert IndexName(users, members, chats, cs[|cs| - 1], me).None?;
    } else {
      forall k | 0 <= k < |cs| ensures IndexName(users, members, chats, cs[k], me).Some? {
        if k < |init| {
          assert IndexName(users, members, chats, init[k], me).Some?;
        }
      }
      forall k | 0 <= k < |cs|
        ensures && r.entries[k].chat == cs[k]
                && Some(r.entries[k].name) == IndexName(users, members, chats, cs[k], me)
                && r.entries[k].unread == if current == Some(cs[k]) then 0 else UnreadCount(messages, me, cs[k])
      {
        if k < |init| {
          assert r.entries[k] == run.entries[k] && cs[k] == init[k];
        }
      }
    }
  }


  /** One turn of the `index` loop, for chat `c`: naming it may raise; the session's chat
      is flushed and counted as having nothing unread. */
  function IndexNext(users: seq<User>, members: Pairs, chats: seq<Chat>, messages: seq<Message>,
                     me: UserId, current: Option<ChatId>, run: IndexRun, c: ChatId): (r: IndexRun)
    requires c < |chats|
    ensures r.failed <==> IndexName(users, members, chats, c, me).None?
    ensures !r.failed ==>
      r.entries == run.entries + [IndexEntry(IndexName(users, members, chats, c, me).value, c,
                                             if current == Some(c) then 0 else UnreadCount(messages, me, c))]
    ensures r.flushed <==> run.flushed || (!r.failed && current == Some(c))
  {
    var name := IndexName(users, members, chats, c, me);
    if name.None? then IndexRun(run.entries, true, run.flushed)
    else if current == Some(c) then IndexRun(run.entries + [IndexEntry(name.value, c, 0)], false, true)
    else IndexRun(run.entries + [IndexEntry(name.value, c, UnreadCount(messages, me, c))], false, run.flushed)
  }

  lemma IndexStep(users: seq<User>, members: Pairs, chats: seq<Chat>, messages: seq<Message>,
                  me: UserId, current: Option<ChatId>, cs: seq<ChatId>, k: nat, run: IndexRun)
    requires k < |cs| && forall j :: 0 <= j < |cs| ==> cs[j] < |chats|
    requires run == IndexWalk(users, members, chats, messages, me, current, cs[..k]) && !run.failed
    ensures IndexWalk(users, members, chats, messages, me, current, cs[..k + 1])
         == IndexNext(users, members, chats, messages, me, current, run, cs[k])
  {
    assert cs[..k + 1][..k] == cs[..k];
  }

  /** Once naming a chat has raised, the rest of the chats are not reached. */
  lemma {:induction false} IndexStaysFailed(users: seq<User>, members: Pairs, chats: seq<Chat>, messages: seq<Message>,
                                            me: UserId, current: Option<ChatId>, cs: seq<ChatId>, k: nat)
    requires k <= |cs| && forall j :: 0 <= j < |cs| ==> cs[j] < |chats|
    requires IndexWalk(users, members, chats, messages, me, current, cs[..k]).failed
    ensures IndexWalk(users, members, chats, messages, me, current, cs)
         == IndexWalk(users, members, chats, messages, me, current, cs[..k])
    decreases |cs| - k
  {
    if k < |cs| {
      assert cs[..k + 1][..k] == cs[..k];
      IndexStaysFailed(users, members, chats, messages, me, current, cs, k + 1);
    } else {
      assert cs[..k] == cs;
    }
  }

  // ---------------------------------------------------------------- the handlers

  class Server {
    const db: Store
    /** `USER_WEBSOCKET_MAPPING`. */
    var sockets: map<UserId, Sid>
    /** `session['current_chat_id']` of each user's session; no entry stands for `None`. */
    var session: map<UserId, ChatId>
    /** Every `socket_io.emit` (and every spawned `send_update`), in order. */
    var outbox: seq<Emit>

    /** Between requests the database is consistent and has nothing pending. */
    ghost predicate Valid()
      reads this, db
    {
      db.Valid() && db.Chronicled() && db.Committed()
    }

    constructor (db: Store)
      requires db.Valid() && db.Chronicled() && db.Committed()
      ensures Valid()
      ensures this.db == db && sockets == map[] && session == map[] && outbox == []
    {
      this.db := db;
      sockets, session, outbox := map[], map[], [];
    }

    /** `session.get('current_chat_id')`. */
    function SessionChat(u: UserId): Option<ChatId>
      reads this`session
    {
      if u in session then Some(session[u]) else None
    }

    /** `save_room` (on `connect`): an authenticated user's socket id replaces any earlier
        one, and their pending unread summary is pushed to the new socket. */
    method Connect(me: Option<UserId>, sid: Sid) returns (r: Result<()>)
      requires Valid() && (me.Some? ==> me.value < |db.users|)
      modifies this`sockets, this`outbox
      ensures Valid()
      ensures me.None? ==> r.Ok? && sockets == old(sockets) && outbox == old(outbox)
      ensures me.Some? ==> sockets == old(sockets)[me.value := sid]
      ensures me.Some? ==>
        var data := UpdatedChats(db.users, db.members, db.removed, db.chats, db.messages, me.value, SessionChat(me.value));
        && (r.Err? <==> data.Err?)
        && outbox == old(outbox) + (if data.Ok? && data.value.Some? then [ChatUpdatedEvent(sid, data.value.value)] else [])
    {
      if me.None? {
        return Ok(());
      }
      sockets := sockets[me.value := sid];
      var data := GetUpdatedChats(db, me.value, SessionChat(me.value));
      if data.Err? {
        return Err(data.failure);
      }
      if data.value.Some? {
        outbox := outbox + [ChatUpdatedEvent(sid, data.value.value)];
      }
      r := Ok(());
    }

    /** `test_disconnect` (on `disconnect`): the user's entry is deleted; deleting an entry
        that is not there raises `KeyError`. */
    method Disconnect(me: Option<UserId>) returns (r: Result<()>)
      requires Valid()
      modifies this`sockets
      ensures Valid()
      ensures me.None? ==> r.Ok? && sockets == old(sockets)
      ensures me.Some? ==> (r.Ok? <==> me.value in old(sockets))
      ensures me.Some? && r.Ok? ==> sockets == old(sockets) - {me.value}
      ensures me.Some? && r.Err? ==> r.failure == NotConnected && sockets == old(sockets)
    {
      if me.None? {
        return Ok(());
      }
      if me.value !in sockets {
        return Err(NotConnected);
      }
      sockets := sockets - {me.value};
      r := Ok(());
    }

    /** `flush_messages` (the event): marks the user's unread messages of an existing chat
        as read. */
    method FlushMessages(me: UserId, chatId: int) returns (r: Result<()>)
      requires Valid() && me < |db.users|
      modifies db`messages, db`committedRemoved, db`committedContacts
      ensures Valid()
      ensures r.Ok? <==> 0 <= chatId < |db.chats|
      ensures r.Err? ==> r.failure == NotFound && db.messages == old(db.messages)
      ensures r.Ok? ==> db.messages == Flushed(old(db.messages), UnreadMessages(old(db.messages), me, chatId))
    {
      if !(0 <= chatId < |db.chats|) {
        return Err(NotFound);
      }
      db.FlushMessages(UnreadMessages(db.messages, me, chatId));
      r := Ok(());
    }

    /** `remove_chat`: for an existing chat, clears the session's current chat and hides
        the chat from the user with a removal marker. A second marker for the same pair
        fails the commit; that and a missing socket entry both end in `abort(404)`. The
        session is saved only when the handler returns, so a raising handler keeps it. */
    method RemoveChat(me: UserId, chatId: int) returns (r: Result<()>)
      requires Valid() && me < |db.users|
      modifies db`removed, db`contacts, db`committedRemoved, db`committedContacts
      modifies this`session, this`outbox
      ensures Valid()
      ensures r.Err? ==> r.failure == NotFound
      ensures !(0 <= chatId < |db.chats|) ==>
        r.Err? && session == old(session) && db.removed == old(db.removed) && outbox == old(outbox)
      ensures 0 <= chatId < |db.chats| ==>
        && session == (if r.Ok? then old(session) - {me} else old(session))
        && db.contacts == old(db.contacts)
        && db.removed == old(db.removed) + {(me, chatId)}
        && (r.Ok? <==> (me, chatId) !in old(db.removed) && me in sockets)
        && outbox == old(outbox) + (if r.Ok? then [RemoveChatEvent(sockets[me], chatId)] else [])
    {
      if !(0 <= chatId < |db.chats|) {
        return Err(NotFound);
      }
      var marked := db.MarkChatsAsRemoved(me, [chatId]);
      assert (set c | c in [chatId] :: (me, c)) == {(me, chatId)};
      if marked.Err? {
        return Err(NotFound);
      }
      if me !in sockets {
        return Err(NotFound);
      }
      session := session - {me};
      outbox := outbox + [RemoveChatEvent(sockets[me], chatId)];
      r := Ok(());
    }

    /** `choose_chat`: choosing the session's current chat again closes it (the session is
        cleared and an empty list is sent); choosing another existing chat sends all its
        messages, marks the user's unread ones as read and makes it the current chat. The
        session is saved only when the handler returns, so a raising handler keeps it; the
        flush is committed and stays. */
    method ChooseChat(me: UserId, chatId: int) returns (r: Result<()>)
      requires Valid() && me < |db.users|
      modifies db`messages, db`committedRemoved, db`committedContacts
      modifies this`session, this`outbox
      ensures Valid()
      ensures old(SessionChat(me)) == Some(chatId) ==>
        && session == (if r.Ok? then old(session) - {me} else old(session))
        && db.messages == old(db.messages)
        && (r.Ok? <==> me in sockets)
        && (r.Err? ==> r.failure == NotConnected)
        && outbox == old(outbox) + (if r.Ok? then [ChooseChatEvent(sockets[me], [], "", chatId, db.users[me].username)] else [])
      ensures old(SessionChat(me)) != Some(chatId) && !(0 <= chatId < |db.chats|) ==>
        r == Err(NotFound) && session == old(session) && db.messages == old(db.messages) && outbox == old(outbox)
      ensures old(SessionChat(me)) != Some(chatId) && 0 <= chatId < |db.chats| ==>
        var name := GetName(db.users, db.members, db.chats, chatId, me);
        var views := Views(db.users, old(db.messages), ChatMessages(old(db.messages), chatId));
        && session == (if r.Ok? then old(session)[me := chatId] else old(session))
        && db.messages == Flushed(old(db.messages), UnreadMessages(old(db.messages), me, chatId))
        && (r.Ok? <==> name.Some? && me in sockets)
        && (r.Err? ==> r.failure == if name.None? then NoCounterpart else NotConnected)
        && outbox == old(outbox) + (if r.Ok? then [ChooseChatEvent(sockets[me], views, name.value, chatId, db.users[me].username)] else [])
    {
      var saved := SessionChat(me);
      if saved == Some(chatId) {
        if me !in sockets {
          return Err(NotConnected);
        }
        session := session - {me};
        outbox := outbox + [ChooseChatEvent(sockets[me], [], "", chatId, db.users[me].username)];
        return Ok(());
      }
      if !(0 <= chatId < |db.chats|) {
        return Err(NotFound);
      }
      var views := db.GetMessages(me, chatId);
      db.FlushMessages(UnreadMessages(db.messages, me, chatId));
      var name := GetName(db.users, db.members, db.chats, chatId, me);
      if name.None? {
        return Err(NoCounterpart);
      }
      if me !in sockets {
        return Err(NotConnected);
      }
      session := session[me := chatId];
      outbox := outbox + [ChooseChatEvent(sockets[me], views, name.value, chatId, db.users[me].username)];
      r := Ok(());
    }
  
    /** One recipient of `send_message`: their marker for `c` is deleted, then, if they
        have a socket entry, their update is computed. */
    method NotifyOne(c: ChatId, u: UserId, current: Option<ChatId>) returns (data: Result<Option<Update>>)
      requires db.Valid() && db.Chronicled() && u < |db.users|
      modifies db`removed
      ensures db.Valid() && db.removed == old(db.removed) - {(u, c)}
      ensures u in sockets ==> data == UpdatedChats(db.users, db.members, db.removed, db.chats, db.messages, u, current)
      ensures u !in sockets ==> data == Ok(None)
    {
      db.UnmarkChatsAsRemoved(u, [c]);
      assert (set x | x in [c] :: (u, x)) == {(u, c)};
      if u in sockets {
        data := GetUpdatedChats(db, u, current);
      } else {
        data := Ok(None);
      }
    }

    /** Iteration `k` of the loop below, stated against `Pushes`. */
    method NotifyNext(c: ChatId, rs: seq<UserId>, k: nat, current: Option<ChatId>, ghost removed0: Pairs, pushes: seq<Emit>)
      returns (next: Spawned)
      requires db.Valid() && db.Chronicled() && k < |rs| && forall j :: 0 <= j < |rs| ==> rs[j] < |db.users|
      requires db.removed == Unmarked(removed0, rs[..k], c)
      requires Pushes(db.users, db.members, removed0, db.chats, db.messages, c, rs[..k], sockets, current) == Spawned(pushes, None)
      modifies db`removed
      ensures db.Valid() && db.removed == Unmarked(removed0, rs[..k + 1], c)
      ensures next == Pushes(db.users, db.members, removed0, db.chats, db.messages, c, rs[..k + 1], sockets, current)
      ensures next.failure.Some? ==> next.pushes == pushes
      ensures next.failure.None? ==> |next.pushes| >= |pushes| && next.pushes[..|pushes|] == pushes
    {
      var data := NotifyOne(c, rs[k], current);
      assert db.removed == Unmarked(removed0, rs[..k + 1], c) by {
        assert rs[..k + 1] == rs[..k] + [rs[k]];
      }
      PushesAdvance(db.users, db.members, removed0, db.chats, db.messages, c, rs, sockets, current, k, pushes, data);
      var room := if rs[k] in sockets then sockets[rs[k]] else [];
      next := Advance(pushes, data, room);
    }

    /** The loop of `send_message` over the recipients of chat `c`: delete the recipient's
        marker, then spawn an update for a connected recipient when there is one. Stops
        at the first exception, whose pending deletes the caller rolls back. */
    method NotifyRecipients(c: ChatId, rs: seq<UserId>, current: Option<ChatId>) returns (sp: Spawned)
      requires db.Valid() && db.Chronicled() && forall k :: 0 <= k < |rs| ==> rs[k] < |db.users|
      modifies db`removed, this`outbox
      ensures db.Valid()
      ensures sp == Pushes(db.users, db.members, old(db.removed), db.chats, db.messages, c, rs, sockets, current)
      ensures sp.failure.None? ==> db.removed == Unmarked(old(db.removed), rs, c)
      ensures outbox == old(outbox) + sp.pushes
    {
      var users, members, chats, messages, removed0 := db.users, db.members, db.chats, db.messages, db.removed;
      var pushes: seq<Emit> := [];
      var k := 0;
      while k < |rs|
        invariant 0 <= k <= |rs|
        invariant db.Valid()
        invariant db.users == users && db.members == members && db.chats == chats && db.messages == messages
        invariant db.removed == Unmarked(removed0, rs[..k], c)
        invariant Pushes(users, members, removed0, chats, messages, c, rs[..k], sockets, current) == Spawned(pushes, None)
        invariant outbox == old(outbox) + pushes
      {
        var next := NotifyNext(c, rs, k, current, removed0, pushes);
        if next.failure.Some? {
          PushesStop(users, members, removed0, chats, messages, c, rs, sockets, current, k + 1);
          return next;
        }
        assert next.pushes == pushes + next.pushes[|pushes|..];
        outbox := outbox + next.pushes[|pushes|..];
        pushes := next.pushes;
        k := k + 1;
      }
      assert rs[..k] == rs;
      sp := Spawned(pushes, None);
    }

    /** The end of `send_message`, once the recipients have been handled: on success the
        sender gets the message back and the request commits; an exception on the way rolls
        back the pending marker deletes. */
    method Reply(me: UserId, c: ChatId, text: string, sp: Spawned) returns (r: Result<()>)
      requires db.Valid() && db.Chronicled() && db.committedContacts == db.contacts && me < |db.users| && c < |db.chats|
      modifies db`removed, db`contacts, db`committedRemoved, db`committedContacts, this`outbox
      ensures db.Valid() && db.Committed() && db.contacts == old(db.contacts)
      ensures r.Ok? <==> sp.failure.None? && GetName(db.users, db.members, db.chats, c, me).Some? && me in sockets
      ensures r.Ok? ==> db.removed == old(db.removed)
      ensures r.Err? ==> db.removed == old(db.committedRemoved)
      ensures r.Err? ==>
        r.failure == if sp.failure.Some? then sp.failure.value
                     else if GetName(db.users, db.members, db.chats, c, me).None? then NoCounterpart
                     else NotConnected
      ensures outbox == old(outbox) +
        if r.Ok? then [SendMessageEvent(sockets[me], text, db.clock, db.users[me].username, db.users[me].username,
                                        GetName(db.users, db.members, db.chats, c, me).value)]
        else []
    {
      if sp.failure.Some? {
        db.Rollback();
        return Err(sp.failure.value);
      }
      var name := GetName(db.users, db.members, db.chats, c, me);
      if name.None? {
        db.Rollback();
        return Err(NoCounterpart);
      }
      if me !in sockets {
        db.Rollback();
        return Err(NotConnected);
      }
      outbox := outbox + [SendMessageEvent(sockets[me], text, db.clock, db.users[me].username, db.users[me].username, name.value)];
      db.Commit();
      r := Ok(());
    }

    /** Whether `send_message` gets past its guards: a non-empty text for an existing chat. */
    static predicate Posted(text: string, chatId: int, chatCount: nat) {
      text != "" && 0 <= chatId < chatCount
    }

    /** The updates `send_message` spawns for chat `c`, from the markers it started with. */
    ghost function SendPushes(me: UserId, c: ChatId, removed: Pairs): Spawned
      reads this`sockets, this`session, db`users, db`members, db`chats, db`messages
      requires me < |db.users|
    {
      Pushes(db.users, db.members, removed, db.chats, db.messages, c, Recipients(db.users, db.members, me, c), sockets, SessionChat(me))
    }

    /** `send_message` once the message is stored: the recipients of chat `c`, then the
        reply to the sender. */
    method Spread(me: UserId, c: ChatId, text: string) returns (r: Result<()>)
      requires Valid() && me < |db.users| && c < |db.chats|
      modifies db`removed, db`contacts, db`committedRemoved, db`committedContacts, this`outbox
      ensures Valid() && db.contacts == old(db.contacts)
      ensures r.Ok? <==> SendPushes(me, c, old(db.removed)).failure.None?
                         && GetName(db.users, db.members, db.chats, c, me).Some? && me in sockets
      ensures db.removed == if r.Ok? then Unmarked(old(db.removed), Recipients(db.users, db.members, me, c), c) else old(db.removed)
      ensures r.Err? ==>
        r.failure == if SendPushes(me, c, old(db.removed)).failure.Some? then SendPushes(me, c, old(db.removed)).failure.value
                     else if GetName(db.users, db.members, db.chats, c, me).None? then NoCounterpart
                     else NotConnected
      ensures outbox == old(outbox) + SendPushes(me, c, old(db.removed)).pushes +
        if r.Ok? then [SendMessageEvent(sockets[me], text, db.clock, db.users[me].username,
                                        db.users[me].username, GetName(db.users, db.members, db.chats, c, me).value)]
        else []
    {
      var rs := Recipients(db.users, db.members, me, c);
      ghost var users, members, chats, messages, clock := db.users, db.members, db.chats, db.messages, db.clock;
      var sp := NotifyRecipients(c, rs, SessionChat(me));
      assert db.users == users && db.members == members && db.chats == chats;
      assert db.messages == messages && db.clock == clock;
      r := Reply(me, c, text, sp);
      assert db.users == users && db.members == members && db.chats == chats;
      assert db.messages == messages && db.clock == clock;
    }

    /** `send_message` past its guards, for a non-empty text `text` and an existing chat `c`. */
    method Post(me: UserId, c: ChatId, text: string) returns (r: Result<()>)
      requires Valid() && me < |db.users| && c < |db.chats|
      modifies db`messages, db`chats, db`clock, db`removed, db`contacts, db`committedRemoved, db`committedContacts
      modifies this`outbox
      ensures Valid()
      ensures db.contacts == old(db.contacts) && |db.chats| == old(|db.chats|)
      ensures db.clock == old(db.clock) + 1
      ensures db.messages == old(db.messages) + [Message(c, me, Recipient(db.users, db.members, old(db.chats), me, c), text, db.clock, false)]
      ensures db.chats == old(db.chats)[c := old(db.chats)[c].(modified := db.clock)]
      ensures r.Ok? <==> SendPushes(me, c, old(db.removed)).failure.None?
                         && GetName(db.users, db.members, db.chats, c, me).Some? && me in sockets
      ensures db.removed == if r.Ok? then Unmarked(old(db.removed), Recipients(db.users, db.members, me, c), c) else old(db.removed)
      ensures r.Err? ==>
        r.failure == if SendPushes(me, c, old(db.removed)).failure.Some? then SendPushes(me, c, old(db.removed)).failure.value
                     else if GetName(db.users, db.members, db.chats, c, me).None? then NoCounterpart
                     else NotConnected
      ensures outbox == old(outbox) + SendPushes(me, c, old(db.removed)).pushes +
        if r.Ok? then [SendMessageEvent(sockets[me], text, db.clock, db.users[me].username,
                                        db.users[me].username, GetName(db.users, db.members, db.chats, c, me).value)]
        else []
    {
      var recipient := Recipient(db.users, db.members, db.chats, me, c);
      var id := db.PostMessage(c, me, recipient, text);
      r := Spread(me, c, text);
    }

    /** `send_message`: the text is right-stripped and escaped; an empty text ends the
        handler with nothing changed. Otherwise, for an existing chat, the message is
        stored and the chat's modification time is set (committed), each member other
        than the sender has the chat un-hidden and, if connected, gets an update pushed,
        and the sender gets the message back. */
    method SendMessage(me: UserId, chatId: int, rawText: string, esc: string -> string) returns (r: Result<()>)
      requires Valid() && me < |db.users|
      modifies db`messages, db`chats, db`clock, db`removed, db`contacts, db`committedRemoved, db`committedContacts
      modifies this`outbox
      ensures Valid()
      ensures db.contacts == old(db.contacts) && |db.chats| == old(|db.chats|)
      ensures esc(RStrip(rawText)) == "" || !(0 <= chatId < old(|db.chats|)) ==>
        && r == (if esc(RStrip(rawText)) == "" then Ok(()) else Err(NotFound))
        && db.messages == old(db.messages) && db.chats == old(db.chats) && db.clock == old(db.clock)
        && db.removed == old(db.removed) && outbox == old(outbox)
      ensures Posted(esc(RStrip(rawText)), chatId, old(|db.chats|)) ==>
        && db.clock == old(db.clock) + 1
        && db.messages == old(db.messages) +
             [Message(chatId, me, Recipient(db.users, db.members, old(db.chats), me, chatId), esc(RStrip(rawText)), db.clock, false)]
        && db.chats == old(db.chats)[chatId := old(db.chats)[chatId].(modified := db.clock)]
      ensures Posted(esc(RStrip(rawText)), chatId, old(|db.chats|)) ==>
        (r.Ok? <==> SendPushes(me, chatId, old(db.removed)).failure.None?
                    && GetName(db.users, db.members, db.chats, chatId, me).Some? && me in sockets)
      ensures Posted(esc(RStrip(rawText)), chatId, old(|db.chats|)) ==>
        db.removed == if r.Ok? then Unmarked(old(db.removed), Recipients(db.users, db.members, me, chatId), chatId) else old(db.removed)
      ensures Posted(esc(RStrip(rawText)), chatId, old(|db.chats|)) && r.Err? ==>
        r.failure == if SendPushes(me, chatId, old(db.removed)).failure.Some? then SendPushes(me, chatId, old(db.removed)).failure.value
                     else if GetName(db.users, db.members, db.chats, chatId, me).None? then NoCounterpart
                     else NotConnected
      ensures Posted(esc(RStrip(rawText)), chatId, old(|db.chats|)) ==>
        outbox == old(outbox) + SendPushes(me, chatId, old(db.removed)).pushes +
          if r.Ok? then [SendMessageEvent(sockets[me], esc(RStrip(rawText)), db.clock, db.users[me].username,
                                          db.users[me].username, GetName(db.users, db.members, db.chats, chatId, me).value)]
          else []
    {
      var text := esc(RStrip(rawText));
      if text == "" {
        return Ok(());
      }
      if !(0 <= chatId < |db.chats|) {
        return Err(NotFound);
      }
      r := Post(me, chatId, text);
    }

    /** `send_message` as written: when no recipient is found (a group chat, or a chat whose
        only member is the sender) the NOT NULL `recipient_id` makes the first commit raise,
        the session rolls back and nothing is stored, un-hidden or emitted. Otherwise it is
        `SendMessage`: an empty text or an unknown chat changes nothing, and a stored message
        is followed by the recipients' un-hiding, their pushes and the reply. */
    method SendMessageAsWritten(me: UserId, chatId: int, rawText: string, esc: string -> string) returns (r: Result<()>)
      requires Valid() && me < |db.users|
      modifies db`messages, db`chats, db`clock, db`removed, db`contacts, db`committedRemoved, db`committedContacts
      modifies this`outbox
      ensures Valid()
      ensures Posted(esc(RStrip(rawText)), chatId, old(|db.chats|))
              && Recipient(db.users, db.members, old(db.chats), me, chatId).None? ==>
        && r == Err(IntegrityViolation)
        && db.messages == old(db.messages) && db.chats == old(db.chats) && db.clock == old(db.clock)
        && db.removed == old(db.removed) && db.contacts == old(db.contacts) && outbox == old(outbox)
      ensures Posted(esc(RStrip(rawText)), chatId, old(|db.chats|))
              && Recipient(db.users, db.members, old(db.chats), me, chatId).Some? ==>
        && db.clock == old(db.clock) + 1
        && db.messages == old(db.messages) +
             [Message(chatId, me, Recipient(db.users, db.members, old(db.chats), me, chatId), esc(RStrip(rawText)), db.clock, false)]
        && db.chats == old(db.chats)[chatId := old(db.chats)[chatId].(modified := db.clock)]
        && db.contacts == old(db.contacts)
        && (r.Ok? <==> SendPushes(me, chatId, old(db.removed)).failure.None?
                       && GetName(db.users, db.members, db.chats, chatId, me).Some? && me in sockets)
        && db.removed == (if r.Ok? then Unmarked(old(db.removed), Recipients(db.users, db.members, me, chatId), chatId)
                          else old(db.removed))
        && (r.Err? ==>
              r.failure == if SendPushes(me, chatId, old(db.removed)).failure.Some? then SendPushes(me, chatId, old(db.removed)).failure.value
                           else if GetName(db.users, db.members, db.chats, chatId, me).None? then NoCounterpart
                           else NotConnected)
        && outbox == old(outbox) + SendPushes(me, chatId, old(db.removed)).pushes +
             if r.Ok? then [SendMessageEvent(sockets[me], esc(RStrip(rawText)), db.clock, db.users[me].username,
                                             db.users[me].username, GetName(db.users, db.members, db.chats, chatId, me).value)]
             else []
      ensures !Posted(esc(RStrip(rawText)), chatId, old(|db.chats|)) ==>
        && r == (if esc(RStrip(rawText)) == "" then Ok(()) else Err(NotFound))
        && db.messages == old(db.messages) && db.chats == old(db.chats) && db.clock == old(db.clock)
        && db.removed == old(db.removed) && db.contacts == old(db.contacts) && outbox == old(outbox)
    {
      var text := esc(RStrip(rawText));
      if Posted(text, chatId, |db.chats|) && Recipient(db.users, db.members, db.chats, me, chatId).None? {
        return Err(IntegrityViolation);
      }
      r := SendMessage(me, chatId, rawText, esc);
    }

    /** The chats `add_contacts_and_chats` shows again: those shared with a listed user that
        `me` has marked as removed, in id order. */
    function Reshown(me: UserId, ids: seq<int>): (r: seq<ChatId>)
      reads db`members, db`removed, db`chats
      ensures forall k :: 0 <= k < |r| ==> r[k] < |db.chats|
    {
      Rows(RemovedChatsQuery(me, ids, db.members, db.removed, |db.chats|), |db.chats|)
    }

    /** The `added_chats` entries of the chats shown again. */
    function Named(me: UserId, ids: seq<int>): Option<seq<ChatEntry>>
      reads db`users, db`members, db`removed, db`chats
      requires me < |db.users|
    {
      NamedEntries(db.users, db.members, db.chats, me, Reshown(me, ids))
    }

    /** What the loop over the listed users does from the current tables. */
    ghost function Grew(me: UserId, ids: seq<int>): Growth
      reads db`users, db`members, db`chats
      requires me < |db.users|
    {
      Grow(db.users, db.members, |db.chats|, me, Listed(ids, |db.users|))
    }

    /** A new chat for `me` and `u`: created, given the two members (committed), marked as
        removed for `u` (committed), and named for `me`. */
    method OpenChat(me: UserId, u: UserId) returns (c: ChatId, name: Option<string>)
      requires db.Valid() && me < |db.users| && u < |db.users|
      modifies db`chats, db`clock, db`members, db`removed, db`contacts, db`committedRemoved, db`committedContacts
      ensures db.Valid() && db.Committed()
      ensures c == old(|db.chats|) && db.clock == old(db.clock) + 1
      ensures db.chats == old(db.chats) + [Chat(None, false, db.clock, db.clock)]
      ensures db.members == old(db.members) + {(me, c), (u, c)}
      ensures db.removed == old(db.removed) + {(u, c)} && db.contacts == old(db.contacts)
      ensures name == if db.users[u].username == db.users[me].username then None else Some(db.users[u].username)
    {
      c := db.NewChat(None, false);
      db.AddUsers(c, [me, u]);
      assert (u, c) !in db.removed;
      var marked := db.MarkChatsAsRemoved(u, [c]);
      name := NameNewChat(me, u, c);
    }

    /** `chat.get_name(current_user)` for a chat just created for `me` and `u`. */
    method NameNewChat(me: UserId, u: UserId, c: ChatId) returns (name: Option<string>)
      requires me < |db.users| && u < |db.users| && c < |db.chats| && !HasName(db.chats[c])
      requires forall v: UserId :: (v, c) in db.members <==> v == me || v == u
      ensures name == if db.users[u].username == db.users[me].username then None else Some(db.users[u].username)
    {
      NewChatName(db.users, db.members, db.chats, c, me, u);
      name := GetName(db.users, db.members, db.chats, c, me);
    }

    /** The tables once a chat has been opened for each of `partners`, from `members0`,
        `chats0`, `clock0` and `removed0` before the first. */
    ghost predicate Opened(me: UserId, partners: seq<UserId>,
                           members0: Pairs, chats0: seq<Chat>, clock0: nat, removed0: Pairs)
      reads db`chats, db`clock, db`members, db`removed
    {
      && db.chats == chats0 + FreshChats(clock0, |partners|) && db.clock == clock0 + |partners|
      && db.members == Grown(members0, |chats0|, me, partners)
      && db.removed == removed0 + Markers(|chats0|, partners)
    }

    /** Iteration `k` of the loop below: user `us[k]` gets a chat unless one is found. */
    method OpenNext(me: UserId, u: UserId, g: Growth,
                    ghost members0: Pairs, ghost chats0: seq<Chat>, ghost clock0: nat, ghost removed0: Pairs)
      returns (next: Growth)
      requires db.Valid() && me < |db.users| && u < |db.users| && !g.failed
      requires Opened(me, g.partners, members0, chats0, clock0, removed0)
      modifies db`chats, db`clock, db`members, db`removed, db`contacts, db`committedRemoved, db`committedContacts
      ensures db.Valid() && db.contacts == old(db.contacts)
      ensures next == GrowNext(db.users, members0, |chats0|, me, g, u)
      ensures Opened(me, next.partners, members0, chats0, clock0, removed0)
      ensures next == g || next.partners == g.partners + [u]
      ensures next != g ==> db.Committed()
      ensures next == g ==>
        db.committedRemoved == old(db.committedRemoved) && db.committedContacts == old(db.committedContacts)
    {
      var found := GetChat([me, u], db.members, |db.chats|);
      if found.Some? {
        return g;
      }
      OpenedStep(members0, chats0, clock0, removed0, me, g.partners, u);
      var c, name := OpenChat(me, u);
      if name.None? {
        next := Growth(g.partners + [u], g.entries, true);
      } else {
        next := Growth(g.partners + [u], g.entries + [ChatEntry(name.value, c)], false);
      }
    }

    /** The loop of `add_contacts_and_chats` over the listed users `us`, stated against `Grow`:
        it stops when `get_name` raises. */
    method OpenChats(me: UserId, us: seq<UserId>) returns (g: Growth)
      requires db.Valid() && me < |db.users| && forall k :: 0 <= k < |us| ==> us[k] < |db.users|
      modifies db`chats, db`clock, db`members, db`removed, db`contacts, db`committedRemoved, db`committedContacts
      ensures db.Valid() && db.contacts == old(db.contacts)
      ensures g == Grow(db.users, old(db.members), old(|db.chats|), me, us)
      ensures db.chats == old(db.chats) + FreshChats(old(db.clock), |g.partners|)
      ensures db.clock == old(db.clock) + |g.partners|
      ensures db.members == Grown(old(db.members), old(|db.chats|), me, g.partners)
      ensures db.removed == old(db.removed) + Markers(old(|db.chats|), g.partners)
      ensures |g.partners| > 0 ==> db.Committed()
      ensures |g.partners| == 0 ==>
        db.committedRemoved == old(db.committedRemoved) && db.committedContacts == old(db.committedContacts)
    {
      ghost var users := db.users;
      var members0, chats0, clock0, removed0 := db.members, db.chats, db.clock, db.removed;
      g := Growth([], [], false);
      var k := 0;
      while k < |us|
        invariant 0 <= k <= |us|
        invariant db.Valid() && db.users == users && db.contacts == old(db.contacts) && !g.failed
        invariant g == Grow(users, members0, |chats0|, me, us[..k])
        invariant Opened(me, g.partners, members0, chats0, clock0, removed0)
        invariant |g.partners| > 0 ==> db.Committed()
        invariant |g.partners| == 0 ==>
          db.committedRemoved == old(db.committedRemoved) && db.committedContacts == old(db.committedContacts)
      {
        GrowStep(users, members0, |chats0|, me, us, k, g);
        var next := OpenNext(me, us[k], g, members0, chats0, clock0, removed0);
        if next.failed {
          GrowStaysFailed(users, members0, |chats0|, me, us, k + 1);
          return next;
        }
        g := next;
        k := k + 1;
      }
      assert us[..k] == us;
    }

    /** `add_contacts_and_chats` from the loop on, with `added` the entries of the chats
        shown again: on success the list of added chats goes to `me`'s socket and the
        request commits; an exception rolls back whatever is not yet committed. */
    method Introduce(me: UserId, us: seq<UserId>, added: seq<ChatEntry>) returns (r: Result<()>)
      requires db.Valid() && db.committedContacts == db.contacts && me < |db.users|
      requires forall k :: 0 <= k < |us| ==> us[k] < |db.users|
      modifies db`chats, db`clock, db`members, db`removed, db`contacts, db`committedRemoved, db`committedContacts
      modifies this`outbox
      ensures db.Valid() && db.Committed() && db.contacts == old(db.contacts)
      ensures db.chats == old(db.chats) + FreshChats(old(db.clock), |old(Grow(db.users, db.members, |db.chats|, me, us)).partners|)
      ensures db.clock == old(db.clock) + |old(Grow(db.users, db.members, |db.chats|, me, us)).partners|
      ensures db.members == Grown(old(db.members), old(|db.chats|), me, old(Grow(db.users, db.members, |db.chats|, me, us)).partners)
      ensures r.Ok? <==> !old(Grow(db.users, db.members, |db.chats|, me, us)).failed && me in sockets
      ensures r.Ok? || |old(Grow(db.users, db.members, |db.chats|, me, us)).partners| > 0 ==>
        db.removed == old(db.removed) + Markers(old(|db.chats|), old(Grow(db.users, db.members, |db.chats|, me, us)).partners)
      ensures r.Err? && |old(Grow(db.users, db.members, |db.chats|, me, us)).partners| == 0 ==> db.removed == old(db.committedRemoved)
      ensures r.Err? ==> r.failure == if old(Grow(db.users, db.members, |db.chats|, me, us)).failed then NoCounterpart else NotConnected
      ensures outbox == old(outbox) +
        if r.Ok? then [AddContactsAndChatsEvent(sockets[me], added + old(Grow(db.users, db.members, |db.chats|, me, us)).entries)] else []
    {
      var g := OpenChats(me, us);
      if g.failed {
        db.Rollback();
        return Err(NoCounterpart);
      }
      if me !in sockets {
        db.Rollback();
        return Err(NotConnected);
      }
      outbox := outbox + [AddContactsAndChatsEvent(sockets[me], added + g.entries)];
      db.Commit();
      r := Ok(());
    }

    /** `add_contacts_and_chats`: the chats `me` shares with a listed user and has removed
        are shown again and listed with their names; then each listed user with no chat
        with `me` gets a new one, hidden from that user until a message arrives. The new
        contacts the handler collects are never stored. */
    method AddContactsAndChats(me: UserId, ids: seq<int>) returns (r: Result<()>)
      requires Valid() && me < |db.users|
      modifies db`chats, db`clock, db`members, db`removed, db`contacts, db`committedRemoved, db`committedContacts
      modifies this`outbox
      ensures Valid() && db.contacts == old(db.contacts)
      ensures old(Named(me, ids)).None? ==>
        && r == Err(NoCounterpart) && db.chats == old(db.chats) && db.clock == old(db.clock)
        && db.members == old(db.members) && db.removed == old(db.removed)
      ensures old(Named(me, ids)).Some? ==>
        && db.chats == old(db.chats) + FreshChats(old(db.clock), |old(Grew(me, ids)).partners|)
        && db.clock == old(db.clock) + |old(Grew(me, ids)).partners|
        && db.members == Grown(old(db.members), old(|db.chats|), me, old(Grew(me, ids)).partners)
      ensures r.Ok? <==> old(Named(me, ids)).Some? && !old(Grew(me, ids)).failed && me in sockets
      ensures old(Named(me, ids)).Some? && (r.Ok? || |old(Grew(me, ids)).partners| > 0) ==>
        db.removed == old(db.removed) - (set c | c in old(Reshown(me, ids)) :: (me, c))
                      + Markers(old(|db.chats|), old(Grew(me, ids)).partners)
      ensures old(Named(me, ids)).Some? && r.Err? && |old(Grew(me, ids)).partners| == 0 ==>
        db.removed == old(db.removed)
      ensures r.Err? ==>
        r.failure == if old(Named(me, ids)).Some? && !old(Grew(me, ids)).failed then NotConnected else NoCounterpart
      ensures outbox == old(outbox) +
        if r.Ok? then [AddContactsAndChatsEvent(sockets[me], old(Named(me, ids)).value + old(Grew(me, ids)).entries)]
        else []
    {
      var named := Reshow(me, ids);
      if named.None? {
        db.Rollback();
        return Err(NoCounterpart);
      }
      ghost var clock0 := db.clock;
      r := Introduce(me, Listed(ids, |db.users|), named.value);
      StampedLater(db.messages, clock0, db.clock);
    }

    /** The first half of `add_contacts_and_chats`: `me`'s markers for the chats shared
        with a listed user are deleted (not committed), and those chats are named. */
    method Reshow(me: UserId, ids: seq<int>) returns (named: Option<seq<ChatEntry>>)
      requires db.Valid() && me < |db.users|
      modifies db`removed
      ensures db.Valid() && (old(db.Chronicled()) ==> db.Chronicled()) && db.committedRemoved == old(db.committedRemoved)
      ensures named == old(Named(me, ids))
      ensures db.removed == old(db.removed) - (set c | c in old(Reshown(me, ids)) :: (me, c))
    {
      var hidden := Reshown(me, ids);
      named := Named(me, ids);
      db.UnmarkChatsAsRemoved(me, hidden);
    }

    /** What the `index` loop yields from the current tables and session. */
    ghost function Listing(me: UserId): IndexRun
      reads this`session, db`users, db`members, db`removed, db`chats, db`messages
    {
      IndexWalk(db.users, db.members, db.chats, db.messages, me, SessionChat(me),
                AvailableChats(me, db.members, db.removed, db.chats))
    }

    /** `current_chat_name` of the index page: the session's chat, when it names an existing
        chat, is named by `Chat.get_name`, which may raise. */
    function CurrentName(me: UserId): (r: Result<Option<string>>)
      reads this`session, db`users, db`members, db`chats
      requires me < |db.users|
      ensures r.Ok? && r.value.Some? ==> SessionChat(me).Some? && SessionChat(me).value < |db.chats|
      ensures r.Err? <==> SessionChat(me).Some? && SessionChat(me).value < |db.chats|
                          && GetName(db.users, db.members, db.chats, SessionChat(me).value, me).None?
      ensures r.Err? ==> r.failure == NoCounterpart
    {
      if SessionChat(me).Some? && SessionChat(me).value < |db.chats| then
        var name := GetName(db.users, db.members, db.chats, SessionChat(me).value, me);
        if name.Some? then Ok(Some(name.value)) else Err(NoCounterpart)
      else Ok(None)
    }

    /** The messages once the session's chat has been flushed for `me`, if it was. */
    ghost function AfterIndex(me: UserId, messages: seq<Message>, flushed: bool): seq<Message>
      reads this`session
    {
      if flushed && me in session then Flushed(messages, UnreadMessages(messages, me, session[me])) else messages
    }

    /** Flushing on the way leaves the stamps bounded and in order. */
    lemma AfterIndexKeepsStamps(me: UserId, messages: seq<Message>, flushed: bool, clock: nat)
      requires Stamped(messages, clock) && Chronological(messages)
      ensures Stamped(AfterIndex(me, messages, flushed), clock) && Chronological(AfterIndex(me, messages, flushed))
    {
      if flushed && me in session {
        FlushKeepsStamps(messages, UnreadMessages(messages, me, session[me]), clock);
      }
    }

    /** `index`: every available chat is listed with its name and unread count, the
        session's chat being flushed (and committed) on the way; then the session's chat is
        named. Naming a chat may raise; flushes already committed stay. */
    method Index(me: UserId) returns (r: Result<Page>)
      requires Valid() && me < |db.users|
      modifies db`messages, db`committedRemoved, db`committedContacts
      ensures Valid()
      ensures db.messages == AfterIndex(me, old(db.messages), old(Listing(me)).flushed)
      ensures old(Listing(me)).flushed ==> UnreadMessages(db.messages, me, SessionChat(me).value) == []
      ensures r.Ok? <==> !old(Listing(me)).failed && CurrentName(me).Ok?
      ensures r.Ok? ==> r.value == Page(old(Listing(me)).entries, SessionChat(me), CurrentName(me).value)
      ensures r.Err? ==> r.failure == NoCounterpart
    {
      var cs := AvailableChats(me, db.members, db.removed, db.chats);
      var run := IndexChats(me, cs);
      AfterIndexKeepsStamps(me, old(db.messages), run.flushed, db.clock);
      if run.flushed {
        FlushClearsUnread(old(db.messages), me, SessionChat(me).value);
      }
      if run.failed {
        return Err(NoCounterpart);
      }
      var name := CurrentName(me);
      if name.Err? {
        return Err(NoCounterpart);
      }
      r := Ok(Page(run.entries, SessionChat(me), name.value));
    }

    /** The loop of `index` over the chats `cs`. */
    method IndexChats(me: UserId, cs: seq<ChatId>) returns (run: IndexRun)
      requires db.Valid() && db.Committed() && me < |db.users|
      requires NoDuplicates(cs) && forall k :: 0 <= k < |cs| ==> cs[k] < |db.chats|
      modifies db`messages, db`committedRemoved, db`committedContacts
      ensures db.Valid() && db.Committed()
      ensures run == IndexWalk(db.users, db.members, db.chats, old(db.messages), me, SessionChat(me), cs)
      ensures db.messages == AfterIndex(me, old(db.messages), run.flushed)
    {
      ghost var m0 := db.messages;
      run := IndexRun([], false, false);
      var k := 0;
      while k < |cs|
        invariant 0 <= k <= |cs| && db.Valid() && db.Committed() && !run.failed
        invariant run == IndexWalk(db.users, db.members, db.chats, m0, me, SessionChat(me), cs[..k])
        invariant db.messages == AfterIndex(me, m0, run.flushed)
      {
        var next := IndexOne(me, cs, k, run, m0);
        if next.failed {
          IndexStaysFailed(db.users, db.members, db.chats, m0, me, SessionChat(me), cs, k + 1);
          return next;
        }
        run := next;
        k := k + 1;
      }
      assert cs[..k] == cs;
    }

    /** One chat of the `index` loop, with `m0` the messages before the loop. */
    method IndexOne(me: UserId, cs: seq<ChatId>, k: nat, run: IndexRun, ghost m0: seq<Message>) returns (next: IndexRun)
      requires db.Valid() && db.Committed() && me < |db.users|
      requires NoDuplicates(cs) && k < |cs| && forall j :: 0 <= j < |cs| ==> cs[j] < |db.chats|
      requires run == IndexWalk(db.users, db.members, db.chats, m0, me, SessionChat(me), cs[..k]) && !run.failed
      requires db.messages == AfterIndex(me, m0, run.flushed)
      modifies db`messages, db`committedRemoved, db`committedContacts
      ensures db.Valid() && db.Committed()
      ensures next == IndexNext(db.users, db.members, db.chats, m0, me, SessionChat(me), run, cs[k])
      ensures next == IndexWalk(db.users, db.members, db.chats, m0, me, SessionChat(me), cs[..k + 1])
      ensures db.messages == AfterIndex(me, m0, next.flushed)
    {
      IndexStep(db.users, db.members, db.chats, m0, me, SessionChat(me), cs, k, run);
      var c := cs[k];
      var name := IndexName(db.users, db.members, db.chats, c, me);
      if name.None? {
        return IndexRun(run.entries, true, run.flushed);
      }
      if SessionChat(me) == Some(c) {
        db.FlushMessages(UnreadMessages(db.messages, me, c));
        next := IndexRun(run.entries + [IndexEntry(name.value, c, 0)], false, true);
      } else {
        if run.flushed {
          ghost var j :| 0 <= j < k && cs[..k][j] == SessionChat(me).value;
          assert cs[j] != c;
          FlushLeavesOtherChats(m0, me, SessionChat(me).value, me, c);
        }
        next := IndexRun(run.entries + [IndexEntry(name.value, c, UnreadCount(db.messages, me, c))], false, run.flushed);
      }
    }
  }
}
