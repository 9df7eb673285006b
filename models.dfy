/** The table updates of `app/models.py` on one store. Every method that the source ends
    with `database.session.commit()` ends with `Commit()`; the bulk delete of
    `unmark_chats_as_removed` and the contact edits of `add_contacts` and
    `delete_contacts` do not commit, and a failed commit rolls them back. */
module Models {
  import opened Wrappers
  import opened Schema
  import opened Seqs
  import opened Queries

  /** `chat_id = ...` and `user_id = ...` references of the pair tables name existing rows. */
  ghost predicate PairsWithin(ps: Pairs, nUsers: nat, nChats: nat) {
    forall p :: p in ps ==> p.0 < nUsers && p.1 < nChats
  }

  /** No message is stamped later than `clock`. */
  ghost predicate Stamped(messages: seq<Message>, clock: nat) {
    forall i :: 0 <= i < |messages| ==> messages[i].created <= clock
  }

  /** A message stamped by `clock` is stamped by any later clock value. */
  lemma StampedLater(messages: seq<Message>, clock: nat, later: nat)
    requires Stamped(messages, clock) && clock <= later
    ensures Stamped(messages, later)
  {
  }

  ghost predicate ContactsWithin(cs: Contacts, nUsers: nat) {
    forall k :: k in cs ==> k.0 < nUsers && k.1 < nUsers
  }

  /** The row `Chat.from_json` builds, as written: `chat_name` is checked but never stored. */
  function JsonChatAsWritten(chatName: Option<string>, found: nat, now: nat): (r: Result<Chat>)
    ensures r.Ok? ==> r.value.name.None?
    ensures r.Err? <==> found > 1 && !(chatName.Some? && chatName.value != "")
  {
    if found > 1 && !(chatName.Some? && chatName.value != "") then Err(ValidationError)
    else Ok(Chat(None, found > 1, now, now))
  }

  /** A named group chat built by the code as written has no name at all. */
  lemma JsonChatLosesName()
    ensures JsonChatAsWritten(Some("team"), 2, 0).Ok?
    ensures !HasName(JsonChatAsWritten(Some("team"), 2, 0).value)
  {
  }

  /** The row `Chat.from_json` evidently means to build: the given name is kept. */
  function JsonChat(chatName: Option<string>, found: nat, now: nat): (r: Result<Chat>)
    ensures r.Err? <==> found > 1 && !(chatName.Some? && chatName.value != "")
    ensures r.Ok? ==> r.value.isGroup == (found > 1) && r.value.name == chatName
    ensures r.Ok? && r.value.isGroup ==> HasName(r.value)
  {
    if found > 1 && !(chatName.Some? && chatName.value != "") then Err(ValidationError)
    else Ok(Chat(chatName, found > 1, now, now))
  }

  /** `recipient_id` is declared `nullable=False`: as written, the table refuses a message
      without a recipient. */
  predicate MessageRowAcceptedAsWritten(m: Message) {
    m.recipient.Some?
  }

  /** The messages after `Message.flush_messages(q)`: `was_read` is set on exactly the rows
      of `q`; no other column and no other row changes. */
  function Flushed(messages: seq<Message>, q: seq<MessageId>): (r: seq<Message>)
    ensures |r| == |messages|
    ensures forall i :: 0 <= i < |messages| ==>
      r[i] == if i in q then messages[i].(wasRead := true) else messages[i]
  {
    if messages == [] then []
    else
      var last := |messages| - 1;
      Flushed(messages[..last], q) + [if last in q then messages[last].(wasRead := true) else messages[last]]
  }

  /** Row `i` after the flush: read when it was or when `q` lists it, and otherwise as it was. */
  lemma {:induction false} FlushedRow(messages: seq<Message>, q: seq<MessageId>, i: nat)
    requires i < |messages|
    ensures Flushed(messages, q)[i] == if i in q then messages[i].(wasRead := true) else messages[i]
    ensures Flushed(messages, q)[i].wasRead == (messages[i].wasRead || i in q)
    ensures Flushed(messages, q)[i].(wasRead := false) == messages[i].(wasRead := false)
    decreases |messages|
  {
    var last := |messages| - 1;
    if i < last {
      FlushedRow(messages[..last], q, i);
    }
  }

  /** Flushing changes only read flags, so the stamps stay bounded and in order. */
  lemma FlushKeepsStamps(messages: seq<Message>, q: seq<MessageId>, clock: nat)
    requires Stamped(messages, clock) && Chronological(messages)
    ensures Stamped(Flushed(messages, q), clock) && Chronological(Flushed(messages, q))
  {
    var after := Flushed(messages, q);
    forall i | 0 <= i < |after| ensures after[i].created == messages[i].created {
      FlushedRow(messages, q, i);
    }
    forall i, j | 0 <= i < j < |after| ensures Created(after, i) <= Created(after, j) {
      assert Created(messages, i) <= Created(messages, j);
    }
  }

  /** A message stamped no earlier than the clock keeps the table in order when appended. */
  lemma AppendKeepsStamps(messages: seq<Message>, m: Message, clock: nat)
    requires Stamped(messages, clock) && Chronological(messages) && clock <= m.created
    ensures Stamped(messages + [m], m.created) && Chronological(messages + [m])
  {
    var after := messages + [m];
    forall i, j | 0 <= i < j < |after| ensures Created(after, i) <= Created(after, j) {
      if j < |messages| {
        assert Created(messages, i) <= Created(messages, j);
      }
    }
  }

  /** After flushing a viewer's unread messages of a chat, nothing there is unread for them. */
  lemma FlushClearsUnread(messages: seq<Message>, viewer: UserId, c: ChatId)
    ensures UnreadMessages(Flushed(messages, UnreadMessages(messages, viewer, c)), viewer, c) == []
  {
    var q := UnreadMessages(messages, viewer, c);
    forall i: MessageId | i < |messages| ensures !IsUnread(Flushed(messages, q), viewer, c, i) {
      FlushedRow(messages, q, i);
    }
    IncreasingUnique(UnreadMessages(Flushed(messages, q), viewer, c), []);
  }

  /** A flush never makes a message unread, for any viewer and any chat. */
  lemma FlushOnlyReads(messages: seq<Message>, q: seq<MessageId>, viewer: UserId, c: ChatId, i: MessageId)
    requires IsUnread(Flushed(messages, q), viewer, c, i)
    ensures IsUnread(messages, viewer, c, i) && i !in q
  {
    FlushedRow(messages, q, i);
  }

  /** Flushing one chat leaves every other chat's unread list, for every viewer, as it was. */
  lemma FlushLeavesOtherChats(messages: seq<Message>, viewer: UserId, c: ChatId, other: UserId, d: ChatId)
    requires d != c
    ensures UnreadMessages(Flushed(messages, UnreadMessages(messages, viewer, c)), other, d)
         == UnreadMessages(messages, other, d)
  {
    var after := Flushed(messages, UnreadMessages(messages, viewer, c));
    forall i: MessageId ensures IsUnread(after, other, d, i) <==> IsUnread(messages, other, d, i) {
      if i < |messages| {
        FlushedRow(messages, UnreadMessages(messages, viewer, c), i);
        assert after[i].(wasRead := false) == messages[i].(wasRead := false);
        assert after[i].chat == messages[i].chat && after[i].sender == messages[i].sender;
      }
    }
    IncreasingUnique(UnreadMessages(after, other, d), UnreadMessages(messages, other, d));
  }

  /** `was_read` is one flag per message, not per reader: when one member flushes a chat,
      every message they had unread that was not sent by another member `other` is no
      longer unread for `other` either. */
  lemma FlushIsShared(messages: seq<Message>, viewer: UserId, other: UserId, c: ChatId, i: MessageId)
    requires IsUnread(messages, viewer, c, i) && IsUnread(messages, other, c, i)
    ensures !IsUnread(Flushed(messages, UnreadMessages(messages, viewer, c)), other, c, i)
  {
    FlushedRow(messages, UnreadMessages(messages, viewer, c), i);
  }

  /** `User.query.filter(User.username.in_(usernames)).all()`, in id order. */
  function UsersNamed(users: seq<User>, usernames: seq<string>): (r: seq<UserId>)
    ensures forall u: UserId :: u in r <==> u < |users| && users[u].username in usernames
    ensures forall k :: 0 <= k < |r| ==> r[k] < |users|
    ensures NoDuplicates(r)
  {
    var p := (u: UserId) => u < |users| && users[u].username in usernames;
    RangeIncreasing(|users|);
    FilterIncreasing(Range(|users|), p);
    FilterMembers(Range(|users|), p);
    IncreasingNoDuplicates(Filter(Range(|users|), p));
    Filter(Range(|users|), p)
  }

  function RoleNames(specs: seq<(string, Role)>): set<string> {
    set k | 0 <= k < |specs| :: specs[k].0
  }

  /** The roles `insert_roles` installs: the given ones, or the Admin and User roles. */
  function RoleSpecs(given: Option<seq<(string, Role)>>): seq<(string, Role)> {
    if given.Some? then given.value else Permissions.DefaultRoles()
  }

  /** The role specifications come from a dictionary: no name twice. */
  predicate DistinctNames(specs: seq<(string, Role)>) {
    forall i, j :: 0 <= i < j < |specs| ==> specs[i].0 != specs[j].0
  }

  lemma RoleNamesSnoc(specs: seq<(string, Role)>, k: nat)
    requires k < |specs|
    ensures RoleNames(specs[..k + 1]) == RoleNames(specs[..k]) + {specs[k].0}
  {
    assert forall j :: 0 <= j < k ==> specs[..k + 1][j] == specs[..k][j];
    assert specs[..k + 1][k] == specs[k];
  }

  /** The loop of `insert_roles` over the role specifications: find or create each role
      and (re)set its permissions and default flag. */
  method InstallRoles(base: map<string, Role>, specs: seq<(string, Role)>) returns (next: map<string, Role>)
    requires DistinctNames(specs)
    ensures next.Keys == base.Keys + RoleNames(specs)
    ensures forall k :: 0 <= k < |specs| ==> next[specs[k].0] == specs[k].1
    ensures forall n :: n in base && n !in RoleNames(specs) ==> next[n] == base[n]
  {
    next := base;
    var k := 0;
    while k < |specs|
      invariant 0 <= k <= |specs|
      invariant next.Keys == base.Keys + RoleNames(specs[..k])
      invariant forall j :: 0 <= j < k ==> next[specs[j].0] == specs[j].1
      invariant forall n :: n in base && n !in RoleNames(specs[..k]) ==> next[n] == base[n]
    {
      RoleNamesSnoc(specs, k);
      next := next[specs[k].0 := specs[k].1];
      k := k + 1;
    }
    assert specs[..k] == specs;
  }

  class Store {
    var users: seq<User>
    var roles: map<string, Role>
    var contacts: Contacts
    var chats: seq<Chat>
    var members: Pairs
    var removed: Pairs
    var messages: seq<Message>
    /** The clock that stamps `date_created` and `date_modified`. */
    var clock: nat
    /** The committed values of the two tables the core writes without committing. */
    var committedRemoved: Pairs
    var committedContacts: Contacts

    ghost predicate Valid()
      reads this
    {
      && UniqueUsernames(users)
      && PairsWithin(members, |users|, |chats|)
      && PairsWithin(removed, |users|, |chats|)
      && PairsWithin(committedRemoved, |users|, |chats|)
      && ContactsWithin(contacts, |users|)
      && ContactsWithin(committedContacts, |users|)
    }

    /** Messages are stamped from the clock as they are appended: none is stamped later
        than the clock, and stamps never decrease along the table. */
    ghost predicate Chronicled()
      reads this`messages, this`clock
    {
      Stamped(messages, clock) && Chronological(messages)
    }

    /** No write is pending: what the transaction sees is what is committed. */
    ghost predicate Committed()
      reads this
    {
      committedRemoved == removed && committedContacts == contacts
    }

    constructor (users: seq<User>)
      requires UniqueUsernames(users)
      ensures Valid() && Chronicled() && Committed()
      ensures this.users == users && roles == map[] && contacts == map[]
      ensures chats == [] && members == {} && removed == {} && messages == [] && clock == 0
    {
      this.users := users;
      roles, contacts, chats, members, removed, messages := map[], map[], [], {}, {}, [];
      clock := 0;
      committedRemoved, committedContacts := {}, map[];
    }

    /** `database.session.commit()`. */
    method Commit()
      requires Valid()
      modifies this`committedRemoved, this`committedContacts
      ensures Valid() && Committed()
    {
      committedRemoved, committedContacts := removed, contacts;
    }

    /** The rollback of a failed commit or of a request that raised: pending writes are lost. */
    method Rollback()
      requires Valid()
      modifies this`removed, this`contacts
      ensures Valid() && Committed() && (old(Chronicled()) ==> Chronicled())
      ensures removed == committedRemoved && contacts == committedContacts
    {
      removed, contacts := committedRemoved, committedContacts;
    }

    /** `Chat.add_users(users)`: each listed user not yet a member is appended, so every
        listed user ends up a member and no membership row is inserted twice. */
    method AddUsers(c: ChatId, us: seq<UserId>)
      requires Valid() && c < |chats| && forall k :: 0 <= k < |us| ==> us[k] < |users|
      modifies this`members, this`committedRemoved, this`committedContacts
      ensures Valid() && Committed()
      ensures forall p :: p in members <==> p in old(members) || (p.1 == c && p.0 in us)
    {
      var k := 0;
      while k < |us|
        invariant 0 <= k <= |us|
        invariant Valid()
        invariant members == old(members) + (set u | u in us[..k] :: (u, c))
      {
        assert us[..k + 1] == us[..k] + [us[k]];
        if (us[k], c) !in members {
          members := members + {(us[k], c)};
        }
        k := k + 1;
      }
      assert us[..k] == us;
      Commit();
    }

    /** `Chat.remove_users(users)`: removes exactly the listed members. The removals of the
        dynamic relationship are collected in an identity set, so a user listed twice is
        deleted once. Removing a user that is not a member makes the commit fail with a
        stale-data error, and the whole transaction is rolled back. */
    method RemoveUsers(c: ChatId, us: seq<UserId>) returns (r: Result<()>)
      requires Valid()
      modifies this`members, this`removed, this`contacts, this`committedRemoved, this`committedContacts
      ensures Valid() && Committed()
      ensures r.Ok? <==> forall u :: u in us ==> (u, c) in old(members)
      ensures r.Ok? ==> members == old(members) - (set u | u in us :: (u, c))
      ensures r.Ok? ==> removed == old(removed) && contacts == old(contacts)
      ensures r.Err? ==> r.failure == StaleData && members == old(members)
      ensures r.Err? ==> removed == old(committedRemoved) && contacts == old(committedContacts)
    {
      var next := members;
      var k := 0;
      while k < |us|
        invariant 0 <= k <= |us|
        invariant forall u :: u in us[..k] ==> (u, c) in members
        invariant next == members - (set u | u in us[..k] :: (u, c))
      {
        assert us[..k + 1] == us[..k] + [us[k]];
        if (us[k], c) !in members {
          Rollback();
          return Err(StaleData);
        }
        next := next - {(us[k], c)};
        k := k + 1;
      }
      assert us[..k] == us;
      members := next;
      Commit();
      r := Ok(());
    }

    /** `User.mark_chats_as_removed(chats)`: one (me, chat) marker per listed chat. A pair
        that already has a marker, or a chat listed twice, violates the (user_id, chat_id)
        primary key: the commit fails and the whole transaction is rolled back. */
    method MarkChatsAsRemoved(me: UserId, cs: seq<ChatId>) returns (r: Result<()>)
      requires Valid() && me < |users| && forall k :: 0 <= k < |cs| ==> cs[k] < |chats|
      modifies this`removed, this`contacts, this`committedRemoved, this`committedContacts
      ensures Valid() && Committed()
      ensures r.Ok? <==> NoDuplicates(cs) && forall c :: c in cs ==> (me, c) !in old(removed)
      ensures r.Ok? ==> forall p :: p in removed <==> p in old(removed) || (p.0 == me && p.1 in cs)
      ensures r.Ok? ==> contacts == old(contacts)
      ensures r.Err? ==> r.failure == IntegrityViolation
      ensures r.Err? ==> removed == old(committedRemoved) && contacts == old(committedContacts)
    {
      var next := removed;
      var k := 0;
      while k < |cs|
        invariant 0 <= k <= |cs|
        invariant NoDuplicates(cs[..k]) && forall c :: c in cs[..k] ==> (me, c) !in removed
        invariant next == removed + (set c | c in cs[..k] :: (me, c))
        invariant PairsWithin(next, |users|, |chats|)
      {
        assert cs[..k + 1] == cs[..k] + [cs[k]];
        if (me, cs[k]) in next {
          assert !(NoDuplicates(cs) && forall c :: c in cs ==> (me, c) !in removed) by {
            if cs[k] in cs[..k] {
              var j :| 0 <= j < k && cs[..k][j] == cs[k];
              assert cs[j] == cs[k];
            }
          }
          Rollback();
          return Err(IntegrityViolation);
        }
        next := next + {(me, cs[k])};
        k := k + 1;
      }
      assert cs[..k] == cs;
      removed := next;
      Commit();
      r := Ok(());
    }

    /** `User.unmark_chats_as_removed(chats)`: a bulk DELETE of `me`'s markers for the
        given chats; markers of other users and of other chats stay. Not committed here. */
    method UnmarkChatsAsRemoved(me: UserId, cs: seq<ChatId>)
      requires Valid()
      modifies this`removed
      ensures Valid() && (old(Chronicled()) ==> Chronicled())
      ensures removed == old(removed) - (set c | c in cs :: (me, c))
      ensures forall p :: p in removed <==> p in old(removed) && !(p.0 == me && p.1 in cs)
    {
      removed := removed - (set c | c in cs :: (me, c));
    }

    /** `User.add_contacts(users, contact_group)`: an edge me -> u for each listed user not
        yet a contact; existing edges keep their group. Not committed here. */
    method AddContacts(me: UserId, us: seq<UserId>, group: Option<string>)
      requires Valid() && me < |users| && forall k :: 0 <= k < |us| ==> us[k] < |users|
      modifies this`contacts
      ensures Valid()
      ensures contacts.Keys == old(contacts).Keys + (set u | u in us :: (me, u))
      ensures forall e :: e in old(contacts) ==> contacts[e] == old(contacts)[e]
      ensures forall e :: e in contacts && e !in old(contacts) ==> contacts[e] == group
    {
      var k := 0;
      while k < |us|
        invariant 0 <= k <= |us|
        invariant Valid()
        invariant contacts.Keys == old(contacts).Keys + (set u | u in us[..k] :: (me, u))
        invariant forall e :: e in old(contacts) ==> contacts[e] == old(contacts)[e]
        invariant forall e :: e in contacts && e !in old(contacts) ==> contacts[e] == group
      {
        assert us[..k + 1] == us[..k] + [us[k]];
        if !HasContact(contacts, me, us[k]) {
          contacts := contacts[(me, us[k]) := group];
        }
        k := k + 1;
      }
      assert us[..k] == us;
    }

    /** `User.delete_contacts(users)`: removes the edge me -> u of each listed user that is
        a contact; nothing else changes. Not committed here. */
    method DeleteContacts(me: UserId, us: seq<UserId>)
      requires Valid()
      modifies this`contacts
      ensures Valid()
      ensures contacts == old(contacts) - (set u | u in us :: (me, u))
    {
      var k := 0;
      while k < |us|
        invariant 0 <= k <= |us|
        invariant Valid()
        invariant contacts == old(contacts) - (set u | u in us[..k] :: (me, u))
      {
        assert us[..k + 1] == us[..k] + [us[k]];
        if HasContact(contacts, me, us[k]) {
          contacts := contacts - {(me, us[k])};
        }
        k := k + 1;
      }
      assert us[..k] == us;
    }

    /** `Message.flush_messages(query)`: a bulk UPDATE setting `was_read` on exactly the
        messages of the query; every other message is left as it was. */
    method FlushMessages(q: seq<MessageId>)
      requires Valid()
      modifies this`messages, this`committedRemoved, this`committedContacts
      ensures Valid() && Committed() && (old(Chronicled()) ==> Chronicled())
      ensures messages == Flushed(old(messages), q)
    {
      if Chronicled() {
        FlushKeepsStamps(messages, q, clock);
      }
      messages := Flushed(messages, q);
      Commit();
    }

    /** `Role.insert_roles(roles)`: each given role is created if its name is new, and its
        permissions and default flag are (re)set; other roles are untouched. Without an
        argument the Admin and User roles are installed. */
    method InsertRoles(given: Option<seq<(string, Role)>>)
      requires Valid()
      requires given.Some? ==> DistinctNames(given.value)
      modifies this`roles, this`committedRemoved, this`committedContacts
      ensures Valid() && Committed()
      ensures roles.Keys == old(roles).Keys + RoleNames(RoleSpecs(given))
      ensures forall k :: 0 <= k < |RoleSpecs(given)| ==> roles[RoleSpecs(given)[k].0] == RoleSpecs(given)[k].1
      ensures forall n :: n in old(roles) && n !in RoleNames(RoleSpecs(given)) ==> roles[n] == old(roles)[n]
    {
      var specs := RoleSpecs(given);
      assert DistinctNames(specs);
      roles := InstallRoles(roles, specs);
      Commit();
    }

    /** A new `Chat()` row, stamped with a fresh clock value for both dates. */
    method NewChat(name: Option<string>, isGroup: bool) returns (c: ChatId)
      requires Valid()
      modifies this`chats, this`clock
      ensures Valid()
      ensures clock == old(clock) + 1
      ensures c == |old(chats)| && chats == old(chats) + [Chat(name, isGroup, clock, clock)]
    {
      clock := clock + 1;
      c := |chats|;
      chats := chats + [Chat(name, isGroup, clock, clock)];
    }

    /** `Chat.from_json(json_chat, current_user)`: the users named in the request become
        members, then the current user; more than one named user makes a group chat, which
        must have a name. The name is stored (see `JsonChatAsWritten` for the code as written). */
    method FromJson(chatName: Option<string>, usernames: seq<string>, me: UserId) returns (r: Result<ChatId>)
      requires Valid() && me < |users|
      modifies this`chats, this`clock, this`members, this`committedRemoved, this`committedContacts
      ensures Valid() && (r.Ok? ==> Committed())
      ensures var found := UsersNamed(old(users), usernames);
        && (r.Err? <==> JsonChat(chatName, |found|, old(clock) + 1).Err?)
        && (r.Err? ==> r.failure == ValidationError)
        && (r.Err? ==> chats == old(chats) && clock == old(clock) && members == old(members))
        && (r.Ok? ==>
              && r.value == |old(chats)|
              && chats == old(chats) + [JsonChat(chatName, |found|, clock).value]
              && members == old(members) + (set u | u in found :: (u, r.value)) + {(me, r.value)})
    {
      var found := UsersNamed(users, usernames);
      var row := JsonChat(chatName, |found|, clock + 1);
      if row.Err? {
        return Err(ValidationError);
      }
      var c := NewChat(chatName, |found| > 1);
      AddUsers(c, found);
      AddUsers(c, [me]);
      assert (set u | u in [me] :: (u, c)) == {(me, c)};
      r := Ok(c);
    }

    /** The rows `send_message` writes and commits: the message (unread, stamped now) and
        the chat's new `date_modified`. */
    method PostMessage(c: ChatId, sender: UserId, recipient: Option<UserId>, text: string) returns (id: MessageId)
      requires Valid() && c < |chats| && sender < |users|
      requires recipient.Some? ==> recipient.value < |users|
      modifies this`messages, this`chats, this`clock, this`committedRemoved, this`committedContacts
      ensures Valid() && Committed() && (old(Chronicled()) ==> Chronicled())
      ensures clock == old(clock) + 1
      ensures id == |old(messages)|
      ensures messages == old(messages) + [Message(c, sender, recipient, text, clock, false)]
      ensures chats == old(chats)[c := old(chats)[c].(modified := clock)]
    {
      if Chronicled() {
        AppendKeepsStamps(messages, Message(c, sender, recipient, text, clock + 1, false), clock);
      }
      clock := clock + 1;
      id := |messages|;
      messages := messages + [Message(c, sender, recipient, text, clock, false)];
      chats := chats[c := chats[c].(modified := clock)];
      Commit();
    }

    /** `User.get_messages(chat)`: every message of the chat as a dictionary, in creation
        order. The flush at the end of the source function is commented out, so no flag
        changes. */
    method GetMessages(viewer: UserId, c: ChatId) returns (views: seq<MessageView>)
      requires Valid() && Chronicled()
      ensures views == Views(users, messages, ChatMessages(messages, c))
      ensures forall i, j :: 0 <= i < j < |views| ==> views[i].created <= views[j].created
    {
      var ids := ChatMessages(messages, c);
      views := [];
      var k := 0;
      while k < |ids|
        invariant 0 <= k <= |ids|
        invariant |views| == k
        invariant forall j :: 0 <= j < k ==> views[j] == View(users, messages[ids[j]])
      {
        views := views + [View(users, messages[ids[k]])];
        k := k + 1;
      }
      ChatMessagesChronological(messages, ids);
    }

    /** `Message.get_messages_list(query)`: the queried messages as short dictionaries,
        in creation order. */
    method GetMessagesList(ids: seq<MessageId>) returns (list: seq<MessageSummary>)
      requires Valid() && Chronicled() && Increasing(ids) && forall k :: 0 <= k < |ids| ==> ids[k] < |messages|
      ensures list == Summaries(users, messages, ids)
      ensures forall i, j :: 0 <= i < j < |list| ==> list[i].created <= list[j].created
    {
      list := [];
      var k := 0;
      while k < |ids|
        invariant 0 <= k <= |ids|
        invariant |list| == k
        invariant forall j :: 0 <= j < k ==> list[j] == Summary(users, messages[ids[j]])
      {
        list := list + [Summary(users, messages[ids[k]])];
        k := k + 1;
      }
      ChatMessagesChronological(messages, ids);
    }
  }
}
