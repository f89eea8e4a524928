/**
 * The entities shared by client and server (Messenger_Meowtalk.Shared/Models).
 *
 * `Message` carries the fields that MessageService.cs copies (lines 24-36) and that the
 * client rebuilds on a synchronised edit (MainViewModel.cs lines 249-261); its type has
 * the five variants the client and the notification service switch on.
 * C# `DateTime` values are ticks (100 ns). Only `Message.id` is nullable in the model
 * (the server falls back to a fresh Guid for a null id); every other nullable string is
 * modelled as the empty string, which the source's IsNullOrEmpty checks treat alike.
 */
module Models {
  import opened Common
  import opened Encryption

  datatype MessageType = Text | System | Sticker | Image | File

  datatype Message = Message(
    id: Option<string>,
    sender: string,
    content: string,
    chatId: string,
    timestamp: int,
    msgType: MessageType,
    isEdited: bool,
    editedTimestamp: Option<int>,
    originalContent: string,
    mediaType: string,
    isMyMessage: bool)

  datatype User = User(userId: string, username: string, isOnline: bool, status: string)

  /** A row of the `Chats` table. */
  datatype Chat = Chat(chatId: string, name: string)

  /** A membership row of the `UserChats` table. */
  datatype UserChat = UserChat(userId: string, chatId: string, joinedAt: int)

  /** A row of the `EncryptedMessages` table: one recipient's copy of one message. */
  datatype EncryptedMessage = EncryptedMessage(
    messageId: string,
    userId: string,
    encryptedContent: Ciphertext,
    iv: Iv,
    encryptedAt: int)

  /** The status text every new user gets. */
  const OnlineStatus: string := "В сети"

  /** `TimeSpan.TicksPerMinute`. */
  const TicksPerMinute: int := 600_000_000
}
