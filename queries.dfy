/** The read-only queries of `app/models.py`, as functions of the table contents. Where the
    SQL leaves an order unspecified (`.first()`, ties of `ORDER BY`, rows of a join) this
    model takes rows in ascending id order. */
module Queries {
  import opened Wrappers
  import opened Schema
  import opened Seqs
  import opened Text
  import opened Permissions

  /** The first element of `s` satisfying `p`: `.first()` over rows taken in id order. */
  function First(s: seq<nat>, p: nat -> bool): (r: Option<nat>)
    ensures r.Some? ==> r.value in s && p(r.value)
    ensures r.None? <==> forall x :: x in s ==> !p(x)
  {
    if s == [] then None
    else if p(s[0]) then Some(s[0])
    else First(s[1..], p)
  }

  /** `First` depends only on the values of `p` on `s`. */
  lemma {:induction false} FirstCongruent(s: seq<nat>, p: nat -> bool, q: nat -> bool)
    requires forall x :: x in s ==> p(x) == q(x)
    ensures First(s, p) == First(s, q)
  {
    if s != [] {
      FirstCongruent(s[1..], p, q);
    }
  }

  /** Over the ids below `n`, `First` fails exactly when no id satisfies `p`. */
  lemma FirstInRange(n: nat, p: nat -> bool)
    ensures First(Range(n), p).None? <==> forall x: nat :: x < n ==> !p(x)
  {
    assert forall x: nat :: x < n ==> x in Range(n);
  }

  // ---------------------------------------------------------------- membership

  /** `chat.users`: the members of chat `c` among the `n` users, in id order. */
  function ChatUsers(n: nat, members: Pairs, c: ChatId): (r: seq<UserId>)
    ensures forall u: UserId :: u in r <==> u < n && (u, c) in members
    ensures Increasing(r)
  {
    var p := (u: UserId) => (u, c) in members;
    RangeIncreasing(n);
    FilterIncreasing(Range(n), p);
    FilterMembers(Range(n), p);
    Filter(Range(n), p)
  }

  /** A member of `c` whose username differs from the viewer's. */
  predicate Counterpart(users: seq<User>, members: Pairs, c: ChatId, viewer: UserId, u: UserId)
    requires viewer < |users|
  {
    u < |users| && (u, c) in members && users[u].username != users[viewer].username
  }

  /** `Chat.get_name(user)`: the stored name when it is non-empty, otherwise the username
      of a member whose username is not the viewer's; `None` stands for the
      `AttributeError` raised when no such member exists. */
  function GetName(users: seq<User>, members: Pairs, chats: seq<Chat>, c: ChatId, viewer: UserId): (r: Option<string>)
    requires c < |chats| && viewer < |users|
    ensures HasName(chats[c]) ==> r == chats[c].name
    ensures !HasName(chats[c]) ==>
      (r.Some? <==> exists u: UserId :: Counterpart(users, members, c, viewer, u))
    ensures !HasName(chats[c]) && r.Some? ==>
      exists u: UserId :: Counterpart(users, members, c, viewer, u) && r.value == users[u].username
  {
    if HasName(chats[c]) then chats[c].name
    else
      var other := First(ChatUsers(|users|, members, c),
                         (u: UserId) => u < |users| && users[u].username != users[viewer].username);
      if other.Some? then
        assert Counterpart(users, members, c, viewer, other.value);
        Some(users[other.value].username)
      else
        None
  }

  /** A nameless two-member chat is named after the other member, seen from either side. */
  lemma GetNameOfPair(users: seq<User>, members: Pairs, chats: seq<Chat>, c: ChatId, a: UserId, b: UserId)
    requires c < |chats| && !HasName(chats[c])
    requires a < |users| && b < |users| && users[a].username != users[b].username
    requires forall u: UserId :: u < |users| ==> ((u, c) in members <==> u == a || u == b)
    ensures GetName(users, members, chats, c, a) == Some(users[b].username)
    ensures GetName(users, members, chats, c, b) == Some(users[a].username)
  {
    assert Counterpart(users, members, c, a, b);
    assert Counterpart(users, members, c, b, a);
  }

  /** Every chat that is named or has a member other than the viewer gets a name. */
  lemma GetNameDefined(users: seq<User>, members: Pairs, chats: seq<Chat>, c: ChatId, viewer: UserId, other: UserId)
    requires c < |chats| && viewer < |users|
    requires HasName(chats[c]) || Counterpart(users, members, c, viewer, other)
    ensures GetName(users, members, chats, c, viewer).Some?
  {
  }

  /** `Chat.get_chat(users)`: the first chat that has every given user as a member. */
  predicate ContainsAll(members: Pairs, us: seq<UserId>, c: ChatId) {
    forall u: UserId :: u in us ==> (u, c) in members
  }

  function GetChat(us: seq<UserId>, members: Pairs, n: nat): (r: Option<ChatId>)
    ensures r.Some? ==> r.value < n && ContainsAll(members, us, r.value)
  {
    if n == 0 then None
    else
      var earlier := GetChat(us, members, n - 1);
      if earlier.Some? then earlier
      else if ContainsAll(members, us, n - 1) then Some(n - 1)
      else None
  }

  /** The chat found is the first of the `n` chats that contains all of `us`; there is none
      exactly when no chat contains them all. */
  lemma {:induction false} GetChatFirst(us: seq<UserId>, members: Pairs, n: nat)
    ensures GetChat(us, members, n).Some? ==>
      GetChat(us, members, n).value < n && ContainsAll(members, us, GetChat(us, members, n).value)
    ensures GetChat(us, members, n).Some? ==>
      forall c: ChatId :: c < GetChat(us, members, n).value ==> !ContainsAll(members, us, c)
    ensures GetChat(us, members, n).None? <==> forall c: ChatId :: c < n ==> !ContainsAll(members, us, c)
  {
    if n > 0 {
      GetChatFirst(us, members, n - 1);
    }
  }

  /** The chat found for a list of users does not depend on the list's order. */
  lemma {:induction false} GetChatOrderFree(us: seq<UserId>, vs: seq<UserId>, members: Pairs, n: nat)
    requires forall u: UserId :: u in us <==> u in vs
    ensures GetChat(us, members, n) == GetChat(vs, members, n)
  {
    if n > 0 {
      GetChatOrderFree(us, vs, members, n - 1);
      assert ContainsAll(members, us, n - 1) == ContainsAll(members, vs, n - 1);
    }
  }

  /** `User.get_chat_query(user_ids)`: chats of `me` joined with the membership rows of
      the listed users, so exactly the chats of `me` that also contain a listed user. */
  function ChatQuery(me: UserId, ids: seq<int>, members: Pairs, n: nat): (r: set<ChatId>)
    ensures forall c: ChatId :: c in r <==>
      c < n && (me, c) in members && exists i :: 0 <= i < |ids| && ids[i] >= 0 && (ids[i], c) in members
  {
    set c | 0 <= c < n && (me, c) in members && exists i :: 0 <= i < |ids| && ids[i] >= 0 && (ids[i], c) in members
  }

  /** `me.get_chat_query([u])` and `Chat.get_chat([me, u])` agree on whether `me` and `u`
      share a chat: the first is empty exactly when the second finds none. */
  lemma ChatQueryGetChat(me: UserId, u: UserId, members: Pairs, n: nat)
    ensures ChatQuery(me, [u], members, n) == {} <==> GetChat([me, u], members, n).None?
  {
    GetChatFirst([me, u], members, n);
    if GetChat([me, u], members, n).Some? {
      var c := GetChat([me, u], members, n).value;
      assert ContainsAll(members, [me, u], c);
      assert (me, c) in members && (u, c) in members;
      assert [u][0] == u;
      assert c in ChatQuery(me, [u], members, n);
    }
    if ChatQuery(me, [u], members, n) != {} {
      var c :| c in ChatQuery(me, [u], members, n);
      assert (me, c) in members && (u, c) in members;
      assert ContainsAll(members, [me, u], c);
    }
  }

  /** `User.get_removed_query(chat_query)`: the chats of `me`'s removal markers, restricted
      to `within` when a chat query is given (a query object is always truthy). */
  function RemovedQuery(me: UserId, removed: Pairs, within: Option<set<ChatId>>): (r: set<ChatId>)
    ensures forall c: ChatId :: c in r <==> (me, c) in removed && (within.Some? ==> c in within.value)
  {
    set p | p in removed && p.0 == me && (within.Some? ==> p.1 in within.value) :: p.1
  }

  /** `User.get_removed_chats_query(user_ids)`: chats shared with a listed user that
      `me` has marked as removed. */
  function RemovedChatsQuery(me: UserId, ids: seq<int>, members: Pairs, removed: Pairs, n: nat): (r: set<ChatId>)
    ensures forall c: ChatId :: c in r <==>
      c < n && (me, c) in members && (me, c) in removed &&
      exists i :: 0 <= i < |ids| && ids[i] >= 0 && (ids[i], c) in members
  {
    var shared := ChatQuery(me, ids, members, n);
    shared * RemovedQuery(me, removed, Some(shared))
  }

  /** A set of chat ids materialised by `.all()`, in id order. */
  function Rows(s: set<ChatId>, n: nat): (r: seq<ChatId>)
    requires forall c: ChatId :: c in s ==> c < n
    ensures forall c: ChatId :: c in r <==> c in s
    ensures forall k :: 0 <= k < |r| ==> r[k] < n
    ensures Increasing(r)
  {
    var p := (c: ChatId) => c in s;
    RangeIncreasing(n);
    FilterIncreasing(Range(n), p);
    FilterMembers(Range(n), p);
    Filter(Range(n), p)
  }

  // ---------------------------------------------------------------- chat lists

  function Modified(chats: seq<Chat>, c: ChatId): nat {
    if c < |chats| then chats[c].modified else 0
  }

  /** `ORDER BY date_modified DESC`. */
  function ByModifiedDesc(chats: seq<Chat>): (ChatId, ChatId) -> bool {
    (a: ChatId, b: ChatId) => Modified(chats, a) >= Modified(chats, b)
  }

  /** `User.get_available_chats_query()`: the chats `me` belongs to that carry no removal
      marker of `me`, most recently modified first (ties in id order). */
  function AvailableChats(me: UserId, members: Pairs, removed: Pairs, chats: seq<Chat>): (r: seq<ChatId>)
    ensures forall c: ChatId :: c in r <==> c < |chats| && (me, c) in members && (me, c) !in removed
    ensures forall k :: 0 <= k < |r| ==> r[k] < |chats|
    ensures NoDuplicates(r)
    ensures forall i, j :: 0 <= i < j < |r| ==> Modified(chats, r[i]) >= Modified(chats, r[j])
  {
    var p := (c: ChatId) => (me, c) in members && (me, c) !in removed;
    var candidates := Filter(Range(|chats|), p);
    var le := ByModifiedDesc(chats);
    RangeIncreasing(|chats|);
    FilterIncreasing(Range(|chats|), p);
    FilterMembers(Range(|chats|), p);
    IncreasingNoDuplicates(candidates);
    SortSameElements(candidates, le);
    SortNoDuplicates(candidates, le);
    SortSorted(candidates, le);
    var sorted := Sort(candidates, le);
    assert forall k :: 0 <= k < |sorted| ==> sorted[k] in candidates;
    sorted
  }

  /** `ORDER BY username`, compared character by character. */
  function ByUsername(users: seq<User>): (UserId, UserId) -> bool {
    (a: UserId, b: UserId) => StrLe(UsernameOr(users, a), UsernameOr(users, b))
  }

  function UsernameOr(users: seq<User>, u: UserId): string {
    if u < |users| then users[u].username else ""
  }

  lemma ByUsernameTotalPreorder(users: seq<User>)
    ensures TotalPreorder(ByUsername(users))
  {
    var le := ByUsername(users);
    forall a, b ensures le(a, b) || le(b, a) {
      StrLeTotal(UsernameOr(users, a), UsernameOr(users, b));
    }
    forall a, b, c | le(a, b) && le(b, c) ensures le(a, c) {
      StrLeTransitive(UsernameOr(users, a), UsernameOr(users, b), UsernameOr(users, c));
    }
  }

  /** `User.get_other_users_query()`: every user except `me`, ordered by username. */
  function OtherUsers(users: seq<User>, me: UserId): (r: seq<UserId>)
    ensures forall u: UserId :: u in r <==> u < |users| && u != me
    ensures NoDuplicates(r)
    ensures forall i, j :: 0 <= i < j < |r| ==> StrLe(UsernameOr(users, r[i]), UsernameOr(users, r[j]))
  {
    var p := (u: UserId) => u != me;
    var others := Filter(Range(|users|), p);
    var le := ByUsername(users);
    RangeIncreasing(|users|);
    FilterIncreasing(Range(|users|), p);
    FilterMembers(Range(|users|), p);
    IncreasingNoDuplicates(others);
    SortSameElements(others, le);
    SortNoDuplicates(others, le);
    ByUsernameTotalPreorder(users);
    SortSorted(others, le);
    Sort(others, le)
  }

  // ---------------------------------------------------------------- search

  /** `Chat.name.like('%' + pattern + '%')`; a NULL name never matches. */
  predicate NameLike(chat: Chat, pattern: string) {
    chat.name.Some? && Like(chat.name.value, "%" + pattern + "%")
  }

  /** A member `v` of `c`, other than `me` by username, whose username is LIKE the pattern. */
  predicate MatchingMember(users: seq<User>, members: Pairs, c: ChatId, me: UserId, pattern: string, v: UserId)
    requires me < |users|
  {
    Counterpart(users, members, c, me, v) && Like(users[v].username, "%" + pattern + "%")
  }

  /** The first half of `search_chats_query`: `me`'s chats whose name matches. */
  function ChatsByName(pattern: string, members: Pairs, chats: seq<Chat>, me: UserId): set<ChatId> {
    set c | 0 <= c < |chats| && (me, c) in members && NameLike(chats[c], pattern)
  }

  /** The second half: `me`'s chats with another member whose username matches. */
  function ChatsByMember(pattern: string, users: seq<User>, members: Pairs, chats: seq<Chat>, me: UserId): set<ChatId>
    requires me < |users|
  {
    set c | 0 <= c < |chats| && (me, c) in members &&
            exists v | 0 <= v < |users| :: MatchingMember(users, members, c, me, pattern, v)
  }

  /** `Chat.search_chats_query(pattern, me)`: the union of both halves. */
  function SearchChats(pattern: string, users: seq<User>, members: Pairs, chats: seq<Chat>, me: UserId): (r: set<ChatId>)
    requires me < |users|
    ensures forall c: ChatId :: c in r <==>
      && c < |chats| && (me, c) in members
      && (NameLike(chats[c], pattern) || exists v :: MatchingMember(users, members, c, me, pattern, v))
  {
    ChatsByName(pattern, members, chats, me) + ChatsByMember(pattern, users, members, chats, me)
  }

  /** A nameless direct chat of `me` and `v` is found exactly when `v`'s username matches:
      `me`'s own username never makes it match. */
  lemma SearchDirectChat(pattern: string, users: seq<User>, members: Pairs, chats: seq<Chat>, me: UserId, v: UserId, c: ChatId)
    requires me < |users| && v < |users| && c < |chats| && chats[c].name.None?
    requires users[me].username != users[v].username
    requires forall u: UserId :: u < |users| ==> ((u, c) in members <==> u == me || u == v)
    ensures c in SearchChats(pattern, users, members, chats, me) <==> Like(users[v].username, "%" + pattern + "%")
  {
    if c in SearchChats(pattern, users, members, chats, me) {
      var w :| MatchingMember(users, members, c, me, pattern, w);
      assert w == v;
    }
    if Like(users[v].username, "%" + pattern + "%") {
      assert MatchingMember(users, members, c, me, pattern, v);
    }
  }

  /** For a pattern without wildcards the search is a substring test on names. */
  lemma SearchBySubstring(pattern: string, users: seq<User>, members: Pairs, chats: seq<Chat>, me: UserId, c: ChatId)
    requires me < |users| && NoWildcards(pattern)
    ensures c in SearchChats(pattern, users, members, chats, me) <==>
      && c < |chats| && (me, c) in members
      && ((chats[c].name.Some? && IsSubstring(pattern, chats[c].name.value))
          || exists v: UserId :: Counterpart(users, members, c, me, v) && IsSubstring(pattern, users[v].username))
  {
    if c < |chats| && chats[c].name.Some? {
      LikeContains(chats[c].name.value, pattern);
    }
    if exists v: UserId :: MatchingMember(users, members, c, me, pattern, v) {
      var v: UserId :| MatchingMember(users, members, c, me, pattern, v);
      LikeContains(users[v].username, pattern);
    }
    if exists v: UserId :: Counterpart(users, members, c, me, v) && IsSubstring(pattern, users[v].username) {
      var v: UserId :| Counterpart(users, members, c, me, v) && IsSubstring(pattern, users[v].username);
      LikeContains(users[v].username, pattern);
      assert MatchingMember(users, members, c, me, pattern, v);
    }
  }

  // ---------------------------------------------------------------- messages

  /** `chat.messages.order_by(Message.date_created)`: the messages of `c` in table order. */
  function ChatMessages(messages: seq<Message>, c: ChatId): (r: seq<MessageId>)
    ensures forall i: MessageId :: i in r <==> i < |messages| && messages[i].chat == c
    ensures forall k :: 0 <= k < |r| ==> r[k] < |messages|
    ensures Increasing(r)
  {
    var p := (i: MessageId) => i < |messages| && messages[i].chat == c;
    RangeIncreasing(|messages|);
    FilterIncreasing(Range(|messages|), p);
    FilterMembers(Range(|messages|), p);
    Filter(Range(|messages|), p)
  }

  /** The filter of `get_unread_messages_query`. */
  predicate IsUnread(messages: seq<Message>, viewer: UserId, c: ChatId, i: MessageId) {
    i < |messages| && messages[i].chat == c && messages[i].sender != viewer && !messages[i].wasRead
  }

  /** `User.get_unread_messages_query(chat)`: messages of `c` not sent by the viewer and
      not yet read, in table order. */
  function UnreadMessages(messages: seq<Message>, viewer: UserId, c: ChatId): (r: seq<MessageId>)
    ensures forall i: MessageId :: i in r <==> IsUnread(messages, viewer, c, i)
    ensures forall k :: 0 <= k < |r| ==> r[k] < |messages|
    ensures Increasing(r)
  {
    var p := (i: MessageId) => IsUnread(messages, viewer, c, i);
    RangeIncreasing(|messages|);
    FilterIncreasing(Range(|messages|), p);
    FilterMembers(Range(|messages|), p);
    Filter(Range(|messages|), p)
  }

  /** In a chronological table, every chat's messages come out in creation order. */
  lemma ChatMessagesChronological(messages: seq<Message>, ids: seq<MessageId>)
    requires Chronological(messages) && Increasing(ids)
    requires forall k :: 0 <= k < |ids| ==> ids[k] < |messages|
    ensures forall k, l :: 0 <= k < l < |ids| ==> messages[ids[k]].created <= messages[ids[l]].created
  {
    forall k, l | 0 <= k < l < |ids| ensures messages[ids[k]].created <= messages[ids[l]].created {
      assert Id(ids, k) < Id(ids, l);
      assert Created(messages, ids[k]) <= Created(messages, ids[l]);
    }
  }

  function UsernameOf(users: seq<User>, u: UserId): Option<string> {
    if u < |users| then Some(users[u].username) else None
  }

  /** One entry of `get_messages`' list. */
  datatype MessageView = MessageView(text: string, created: nat, sender: Option<string>, recipient: Option<string>)

  /** One entry of `get_messages_list`' list. */
  datatype MessageSummary = MessageSummary(text: string, sender: Option<string>, created: nat)

  function View(users: seq<User>, m: Message): MessageView {
    MessageView(m.text, m.created, UsernameOf(users, m.sender),
                if m.recipient.Some? then UsernameOf(users, m.recipient.value) else None)
  }

  function Summary(users: seq<User>, m: Message): MessageSummary {
    MessageSummary(m.text, UsernameOf(users, m.sender), m.created)
  }

  function Views(users: seq<User>, messages: seq<Message>, ids: seq<MessageId>): seq<MessageView>
    requires forall k :: 0 <= k < |ids| ==> ids[k] < |messages|
  {
    seq(|ids|, k requires 0 <= k < |ids| => View(users, messages[ids[k]]))
  }

  function Summaries(users: seq<User>, messages: seq<Message>, ids: seq<MessageId>): seq<MessageSummary>
    requires forall k :: 0 <= k < |ids| ==> ids[k] < |messages|
  {
    seq(|ids|, k requires 0 <= k < |ids| => Summary(users, messages[ids[k]]))
  }

  // ---------------------------------------------------------------- contacts, roles

  /** `User.has_contact(user)`: the edge `me -> user` exists. */
  predicate HasContact(contacts: Contacts, me: UserId, user: UserId) {
    (me, user) in contacts
  }

  /** `User.is_contacted_by(user)`: the edge `user -> me` exists. */
  predicate IsContactedBy(contacts: Contacts, me: UserId, user: UserId) {
    (user, me) in contacts
  }

  /** For every contact table, `a.has_contact(b)` and `b.is_contacted_by(a)` read the same
      edge `a -> b`, and `a.is_contacted_by(b)` reads the reverse edge `b -> a`. */
  lemma ContactsDirected(contacts: Contacts, a: UserId, b: UserId)
    ensures HasContact(contacts, a, b) <==> IsContactedBy(contacts, b, a)
    ensures IsContactedBy(contacts, a, b) <==> HasContact(contacts, b, a)
  {
  }

  /** An edge has no reverse by itself: a table holding only `a -> b` has `b` as a contact
      of `a` and not `a` as a contact of `b`. */
  lemma ContactsAsymmetric(contacts: Contacts, a: UserId, b: UserId)
    requires a != b && contacts == map[(a, b) := None]
    ensures HasContact(contacts, a, b) && IsContactedBy(contacts, b, a)
    ensures !HasContact(contacts, b, a) && !IsContactedBy(contacts, a, b)
  {
  }

  /** `User.has_permission(p)`: the user has a role whose mask has every bit of `p`. */
  predicate HasPermission(users: seq<User>, roles: map<string, Role>, u: UserId, p: nat)
    requires u < |users|
    ensures HasPermission(users, roles, u, p) ==>
      users[u].role.Some? && users[u].role.value in roles && p <= roles[users[u].role.value].permissions
  {
    users[u].role.Some? && users[u].role.value in roles &&
    Grants(roles[users[u].role.value].permissions, p)
  }

  /** Holding a permission implies holding each permission it includes, and a user holds
      the empty permission exactly when the user has a role. */
  lemma HasPermissionMonotone(users: seq<User>, roles: map<string, Role>, u: UserId, p: nat, q: nat)
    requires u < |users| && HasPermission(users, roles, u, p) && Grants(p, q)
    ensures HasPermission(users, roles, u, q)
  {
    GrantsTransitive(roles[users[u].role.value].permissions, p, q);
  }

  lemma HasPermissionZero(users: seq<User>, roles: map<string, Role>, u: UserId)
    requires u < |users|
    ensures HasPermission(users, roles, u, 0) <==> users[u].role.Some? && users[u].role.value in roles
  {
    if users[u].role.Some? && users[u].role.value in roles {
      GrantsReflexive(roles[users[u].role.value].permissions);
    }
  }
}
