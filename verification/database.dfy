/**
 * ChatDbContext: the five tables as in-memory sequences in insertion order, and the
 * constraints the SQLite schema enforces on them (primary keys and the unique
 * (UserId, ChatId) index of ChatDBContext.cs lines 27-29).
 *
 * Every `SaveChanges` is modelled as one atomic update of these sequences.
 */
module Database {
  import opened Common
  import opened Models

  /** Primary key of `Users`. */
  predicate UniqueUserIds(users: seq<User>) {
    forall i, j :: 0 <= i < j < |users| ==> users[i].userId != users[j].userId
  }

  /** Not a schema constraint: the server keeps it by looking a name up before inserting. */
  predicate UniqueUsernames(users: seq<User>) {
    forall i, j :: 0 <= i < j < |users| ==> users[i].username != users[j].username
  }

  /** Primary key of `Chats`. */
  predicate UniqueChatIds(chats: seq<Chat>) {
    forall i, j :: 0 <= i < j < |chats| ==> chats[i].chatId != chats[j].chatId
  }

  /** Primary key of `Messages`: present and unique. */
  predicate MessageKeys(messages: seq<Message>) {
    && (forall i :: 0 <= i < |messages| ==> messages[i].id.Some?)
    && (forall i, j :: 0 <= i < j < |messages| ==> messages[i].id != messages[j].id)
  }

  /** The unique index on (UserId, ChatId) of `UserChats`. */
  predicate UniqueMemberships(userChats: seq<UserChat>) {
    forall i, j :: 0 <= i < j < |userChats| ==>
      userChats[i].userId != userChats[j].userId || userChats[i].chatId != userChats[j].chatId
  }

  predicate UserExists(users: seq<User>, userId: string) {
    exists i :: 0 <= i < |users| && users[i].userId == userId
  }

  /**
   * The foreign keys of `UserChats` (ChatDBContext.cs lines 31-41): every membership names
   * a stored user and a stored chat. Users and chats are never deleted, so the cascades
   * never fire.
   */
  predicate MembershipsReferToRows(userChats: seq<UserChat>, users: seq<User>, chats: seq<Chat>) {
    forall k :: 0 <= k < |userChats| ==>
      UserExists(users, userChats[k].userId) && ChatExists(chats, userChats[k].chatId)
  }

  predicate HasMessage(messages: seq<Message>, id: string) {
    exists i :: 0 <= i < |messages| && messages[i].id == Some(id)
  }

  predicate ChatExists(chats: seq<Chat>, chatId: string) {
    exists i :: 0 <= i < |chats| && chats[i].chatId == chatId
  }

  predicate IsMember(userChats: seq<UserChat>, userId: string, chatId: string) {
    exists i :: 0 <= i < |userChats| && userChats[i].userId == userId && userChats[i].chatId == chatId
  }

  /**
   * Every encrypted copy belongs to a stored message. The schema declares no foreign key
   * for `EncryptedMessages`; MessageService keeps this by hand.
   */
  predicate RowsReferToMessages(rows: seq<EncryptedMessage>, messages: seq<Message>) {
    forall k :: 0 <= k < |rows| ==> HasMessage(messages, rows[k].messageId)
  }

  class ChatDb {
    var users: seq<User>
    var chats: seq<Chat>
    var messages: seq<Message>
    var userChats: seq<UserChat>
    var encryptedMessages: seq<EncryptedMessage>

    /** The constraints SQLite enforces. */
    ghost predicate Valid()
      reads this
    {
      && UniqueUserIds(users)
      && UniqueChatIds(chats)
      && MessageKeys(messages)
      && UniqueMemberships(userChats)
      && MembershipsReferToRows(userChats, users, chats)
    }

    /** `EnsureCreatedAsync` on a fresh database file. */
    constructor ()
      ensures Valid()
      ensures users == [] && chats == [] && messages == [] && userChats == [] && encryptedMessages == []
    {
      users, chats, messages, userChats, encryptedMessages := [], [], [], [], [];
    }
  }
}
