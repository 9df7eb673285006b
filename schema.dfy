/** The rows of the messenger's tables. Every table in this model is addressed by the
    row's position: ids are handed out by autoincrement and no core operation deletes
    a user, a chat or a message, so the id of a row is its index. */
module Schema {
  import opened Wrappers

  type UserId = nat
  type ChatId = nat
  type MessageId = nat
  /** A Socket.IO connection id (`request.sid`). */
  type Sid = string

  /** `users`: the username is unique; `role` names a row of `roles` (or is NULL). */
  datatype User = User(username: string, role: Option<string>)

  /** `roles`: a permission bit mask and whether new users get this role. */
  datatype Role = Role(permissions: nat, isDefault: bool)

  /** `chats`: the optional display name, the group flag, and creation and
      modification stamps on the store's clock. */
  datatype Chat = Chat(name: Option<string>, isGroup: bool, created: nat, modified: nat)

  /** `messages`: the chat it belongs to, its sender, the optional direct recipient,
      the text, the creation stamp and the `was_read` flag. */
  datatype Message = Message(
    chat: ChatId,
    sender: UserId,
    recipient: Option<UserId>,
    text: string,
    created: nat,
    wasRead: bool)

  /** `user_chat_link` and `removed_chats`: sets of (user_id, chat_id) primary keys. */
  type Pairs = set<(UserId, ChatId)>

  /** `contacts`: (user_id, contact_id) primary keys, each with its `contact_group`. */
  type Contacts = map<(UserId, UserId), Option<string>>

  /** A chat's `name` counts only when it is neither NULL nor empty (Python truthiness). */
  predicate HasName(chat: Chat) {
    chat.name.Some? && chat.name.value != ""
  }

  ghost predicate UniqueUsernames(users: seq<User>) {
    forall u, v :: 0 <= u < v < |users| ==> Username(users, u) != Username(users, v)
  }

  /** The username of user `u`. */
  function Username(users: seq<User>, u: nat): string
    requires u < |users|
  {
    users[u].username
  }

  /** Messages are appended with the current stamp, so `created` never decreases along the table. */
  ghost predicate Chronological(messages: seq<Message>) {
    forall i, j :: 0 <= i < j < |messages| ==> Created(messages, i) <= Created(messages, j)
  }

  /** The stamp of message `i`. */
  function Created(messages: seq<Message>, i: nat): nat
    requires i < |messages|
  {
    messages[i].created
  }
}
