# Meowtalk messenger core in Dafny

This project models the core of Meowtalk, a WebSocket chat with a SQLite store. It covers:

- the server's message store (`MessageService`, with the per-user key map of
  `EncryptionService`);
- the server's per-frame bookkeeping in `Program.cs`: default chat, lazy chat and
  membership creation, user registration, persisting Text frames, the frame history;
- the client's chat-list state machine (`MainViewModel`): classification of incoming
  frames, sync edit, delete and clear, chat creation, de-duplicated delivery, move to top,
  and the edit-mode fields;
- the two client validators, `LoginViewModel.Login` and the selection rule of the
  new-chat dialog.

Files and modules:

| file | module | models |
|---|---|---|
| `common.dfy` | `Common` | `Option`, `Result`, first-match search |
| `strings.dfy` | `Strings` | the .NET string operations the code uses (`StartsWith` and `EndsWith`, compared character by character, `Contains`, `Replace`, `Split` with `RemoveEmptyEntries`, `Trim`, `IsNullOrWhiteSpace`, UTF-16 `Length`, `ToLower` on ASCII) |
| `models.dfy` | `Models` | `Message`, `User`, `Chat`, `UserChat`, `EncryptedMessage` |
| `database.dfy` | `Database` | the five tables of `ChatDbContext` and the schema's keys, unique index and foreign keys as the invariant `ChatDb.Valid` |
| `encryption.dfy` | `Encryption` | UTF-8, symbolic PBKDF2 and AES, and the `EncryptionService` key map |
| `message_service.dfy` | `MessageStore` | `MessageService` over the tables |
| `server.dfy` | `ServerHost` | `Program.cs`: frame dispatch and its helpers |
| `main_view_model.dfy` | `ClientChat` | `MainViewModel` |
| `login.dfy` | `Login` | `LoginViewModel` |
| `new_chat_window.dfy` | `NewChat` | `NewChatWindow` |

Modelling choices:

- **Objects become classes.** Objects whose state the code changes in place are Dafny
  classes: the database context, both services, the server's static lists, and the view
  models. Their methods are specified by pure functions, and the properties are lemmas
  about those functions.
- **Tables are sequences.** Each table is a sequence in insertion order. `FirstOrDefault`
  without `OrderBy` is the first match in that order, and `SaveChanges` is one atomic
  update.
- **Cryptography is symbolic.**
  - A key is the term `Pbkdf2(password bytes, salt bytes, iterations, size)`.
  - A ciphertext is the term `AesCbc(key, iv, plaintext bytes)`.
  - Decryption succeeds exactly under the same key and IV. Under the right key but another
    IV, real AES-CBC returns a garbled text instead of failing; see "## Left out".
  - The UTF-8 encoding of the text is real, with a proved round trip for texts of Unicode
    scalar values.
  - Decryption reads through a `StreamReader`, which skips a leading UTF-8 byte-order mark.
    A text that starts with U+FEFF therefore comes back without it, and every "decrypts to
    the text" below means the text less such a leading U+FEFF.
- **Nondeterminism becomes parameters.** `Guid.NewGuid` is `freshId`, `newGuid`,
  `creatorGuid` or `noticeId`. `DateTime.Now` is `now`, in ticks. The IVs that
  `Aes.GenerateIV` draws are a function `ivs: nat -> Iv`. Save and update index it by the
  participant's position, and the migration by the row count.
- **Nulls are collapsed.** `Message.Id` is `Option<string>`, because the code tests it with
  `??`. Every other nullable string is the empty string. Most null tests in the code are
  `IsNullOrEmpty` or `IsNullOrWhiteSpace`, which treat both alike. A few calls would throw
  on null instead, such as `message.Content.StartsWith` and `GetChatDisplayName(null)`;
  the model gives them the empty string.

Where the code and its documented design differ, the model follows the code:

- `Program.cs` never calls `UpdateMessageAsync`, `DeleteMessageAsync`,
  `ClearChatHistoryAsync` or `MigrateExistingMessagesToEncrypted`. The sync frames the
  client handles reach the server only as System frames, which register the sender.
- `GetUserMessagesAsync` never reads `EncryptedMessages`. It returns the plain rows.
- `SaveMessageAsync` checks neither that the chat exists nor that the participants are
  members of it.
- The migration's default password is the user id followed by `_default_password`.
- `GetUserMessagesAsync` sets `IsMyMessage` by comparing the sender, a username, with the
  user id, a Guid.
- `Program.cs` builds its `EncryptionService` at line 30 and never stores a key in it,
  because only the migration, which the server never calls, generates keys. Every save of
  the running server therefore writes no encrypted row.
- `UserChat` is keyed on an `Id` that the shown entity does not declare. The model's
  membership row has no id, and the unique (UserId, ChatId) index is the key.

## Model

| member | source | states |
|---|---|---|
| `Database.ChatDb.constructor` | Messenger_Meowtalk.Server/Data/ChatDBContext.cs:8-41 | a fresh database has five empty tables and satisfies the keys, the unique (UserId, ChatId) index and the membership foreign keys |
| `Encryption.Utf8RoundTrip` | Messenger_Meowtalk.Server/Services/EncryptionService.cs:31 | decoding the UTF-8 bytes of any text gives that text back |
| `Encryption.Utf8Injective` | Messenger_Meowtalk.Server/Services/EncryptionService.cs:12 | distinct user ids give distinct salts |
| `Encryption.SealRoundTrip` | Messenger_Meowtalk.Server/Services/EncryptionService.cs:18-53 | a text encrypted under a key and IV decrypts under them to the same text, less a leading U+FEFF that the reader takes for a byte-order mark; a text not starting with U+FEFF comes back whole |
| `Encryption.ByteOrderMarkDropped` | Messenger_Meowtalk.Server/Services/EncryptionService.cs:50-52 | "\uFEFF" followed by "hi", sealed and opened, comes back as "hi" |
| `Encryption.EncodedByteOrderMark` | Messenger_Meowtalk.Server/Services/EncryptionService.cs:50-52 | the UTF-8 bytes of a text start with the byte-order mark exactly when the text starts with U+FEFF |
| `Encryption.DerivedKeysDistinct` | Messenger_Meowtalk.Server/Services/EncryptionService.cs:10-16 | the derived key is 32 bytes and equal for two (password, user id) pairs exactly when the pairs are equal |
| `Encryption.EncryptionService.constructor` | Messenger_Meowtalk.Server/Services/EncryptionService.cs:8 | no key is stored at the start |
| `Encryption.EncryptionService.GenerateAndStoreUserKey` | Messenger_Meowtalk.Server/Services/EncryptionService.cs:10-16 | returns the key derived from password and user id; afterwards the user has that key, an earlier key is overwritten and every other user's key is unchanged |
| `Encryption.EncryptionService.EncryptMessage` | Messenger_Meowtalk.Server/Services/EncryptionService.cs:18-36 | fails with key-not-found exactly when the user has no key; otherwise returns the ciphertext and the fresh IV, and they decrypt under the user's key to the message, less a leading U+FEFF |
| `Encryption.EncryptionService.DecryptMessage` | Messenger_Meowtalk.Server/Services/EncryptionService.cs:38-53 | fails with key-not-found when the user has no key, and fails when the data was sealed under another key or IV; a success returns the sealed text |
| `Encryption.EncryptionService.RemoveUserKey` | Messenger_Meowtalk.Server/Services/EncryptionService.cs:56 | afterwards the user has no key, and every other user's key is unchanged |
| `MessageStore.KeyedParticipantsCount` | Messenger_Meowtalk.Server/Services/MessageService.cs:41-58 | a participant with a key gets as many copies as it occurs in the list; a participant without a key gets none |
| `MessageStore.StoredCopy` | Messenger_Meowtalk.Server/Services/MessageService.cs:24-36 | the row written to `Messages`: the message under the saved id, with `IsMyMessage` cleared |
| `MessageStore.EncryptionRows` | Messenger_Meowtalk.Server/Services/MessageService.cs:41-58 | one encrypted row per participant with a key, in participant order; the properties are those of `EncryptionRowsSpec` |
| `MessageStore.EncryptionRowsSpec` | Messenger_Meowtalk.Server/Services/MessageService.cs:41-58 | Save's encrypted rows are, in participant order, one per keyed participant, each tagged with the saved id and decrypting to the message text under that participant's key |
| `MessageStore.ChatMessages` | Messenger_Meowtalk.Server/Services/MessageService.cs:75-76 | holds exactly the stored messages of the chat |
| `MessageStore.SortByTimestamp` | Messenger_Meowtalk.Server/Services/MessageService.cs:77 | insertion sort by timestamp; `SortByTimestampSpec` proves it sorted and a permutation |
| `MessageStore.SortByTimestampSpec` | Messenger_Meowtalk.Server/Services/MessageService.cs:77 | the ordering is by non-decreasing timestamp and is a permutation of its input |
| `MessageStore.HistoryEntries` | Messenger_Meowtalk.Server/Services/MessageService.cs:82-98 | one returned copy per message, in order, with `IsMyMessage` set by comparing the sender with the user id |
| `MessageStore.HistoryEntry` | Messenger_Meowtalk.Server/Services/MessageService.cs:82-98 | the copy returned for one message: same fields, no encrypted content, `IsMyMessage` set by comparing the sender with the user id |
| `MessageStore.HistoryEntriesSort` | Messenger_Meowtalk.Server/Services/MessageService.cs:75-98 | copying the messages and ordering them by timestamp commute |
| `MessageStore.KeptMessages` | Messenger_Meowtalk.Server/Services/MessageService.cs:131-133 | a message survives a clear exactly when it belongs to another chat or is a System message |
| `MessageStore.KeptRows` | Messenger_Meowtalk.Server/Services/MessageService.cs:121-127 | an encrypted row survives exactly when its message is not one of the removed messages |
| `MessageStore.KeptMessagesKeys` | Messenger_Meowtalk.Server/Services/MessageService.cs:131-135 | a clear keeps message ids present and unique |
| `MessageStore.ClearKeepsOtherChats` | Messenger_Meowtalk.Server/Services/MessageService.cs:117-135 | after a clear, every other chat's messages are unchanged and in order, and the cleared chat keeps exactly its System messages |
| `MessageStore.ClearKeepsReferences` | Messenger_Meowtalk.Server/Services/MessageService.cs:117-135 | after a clear, no encrypted row points at a removed message |
| `MessageStore.FindUpdateTarget` | Messenger_Meowtalk.Server/Services/MessageService.cs:152-164 | the target is the first message with the query's id; only when no message has that id is it the first message that matches on sender, chat and a timestamp less than a minute away; there is no target exactly when neither exists |
| `MessageStore.FirstRow` | Messenger_Meowtalk.Server/Services/MessageService.cs:182-183 | the first encrypted row of the (message, participant) pair, or none when there is none |
| `MessageStore.ReencryptRows` | Messenger_Meowtalk.Server/Services/MessageService.cs:174-210 | an update only adds rows, and every existing row keeps its (message, user) pair |
| `MessageStore.ReencryptRowsFrame` | Messenger_Meowtalk.Server/Services/MessageService.cs:174-204 | an update leaves the rows of other messages unchanged, and every row it adds belongs to the message and to a listed participant with a key |
| `MessageStore.ReencryptRowsOpen` | Messenger_Meowtalk.Server/Services/MessageService.cs:174-204 | after an update, the first row of the message for each listed keyed participant decrypts to the new text under that participant's key |
| `MessageStore.MessagesWithoutRows` | Messenger_Meowtalk.Server/Services/MessageService.cs:256-258 | exactly the stored messages that have no encrypted row |
| `MessageStore.ChatMembers` | Messenger_Meowtalk.Server/Services/MessageService.cs:265-268 | exactly the users with a membership in the chat |
| `MessageStore.MigrateForSpec` | Messenger_Meowtalk.Server/Services/MessageService.cs:275-290 | one migration step adds one row for the participant, which decrypts to the message text; the participant then has a key, and a new key is the default-password key |
| `MessageStore.MigrateMembersSpec` | Messenger_Meowtalk.Server/Services/MessageService.cs:273-291 | migrating a message adds one decrypting row per member, in member order, and keeps every earlier key and row |
| `MessageStore.MigrateMessagesSpec` | Messenger_Meowtalk.Server/Services/MessageService.cs:256-294 | a migration adds exactly the sum over pending messages of their chat's member counts; the j-th row of the i-th pending message's block is its copy for the chat's j-th member and decrypts to its text under the final keys; no other row is added; every such member ends with a key; only default-password keys are added; earlier keys and rows stay |
| `MessageStore.MigrateMembersCount` | Messenger_Meowtalk.Server/Services/MessageService.cs:273-291 | migrating one message adds exactly one row per listed member |
| `MessageStore.MigrateMessagesCount` | Messenger_Meowtalk.Server/Services/MessageService.cs:256-294 | a migration adds exactly the sum over pending messages of their chat's member counts |
| `MessageStore.MigrateMessagesCovers` | Messenger_Meowtalk.Server/Services/MessageService.cs:256-294 | the rows a migration adds form one block per pending message, in pending order; the j-th row of a block is the message's copy for its chat's j-th member and decrypts to its text |
| `MessageStore.MigrateKeepsReferences` | Messenger_Meowtalk.Server/Services/MessageService.cs:256-294 | a migration adds rows only for stored messages |
| `MessageStore.RemoveMessageKeys` | Messenger_Meowtalk.Server/Services/MessageService.cs:227-243 | removing the message keeps ids unique, and no message with its id remains |
| `MessageStore.RemoveMessageReferences` | Messenger_Meowtalk.Server/Services/MessageService.cs:227-243 | removing a message together with its encrypted rows leaves every other row pointing at a stored message |
| `MessageStore.MessageService.constructor` | Messenger_Meowtalk.Server/Services/MessageService.cs:13-17 | the service works on the given context and encryption service |
| `MessageStore.MessageService.SaveMessageAsync` | Messenger_Meowtalk.Server/Services/MessageService.cs:19-68 | stores the message under its id or a fresh one, plus the rows of `EncryptionRows`; a duplicate id stores nothing; the schema invariant and the row references are kept |
| `MessageStore.MessageService.GetUserMessagesAsync` | Messenger_Meowtalk.Server/Services/MessageService.cs:70-109 | the result is sorted by timestamp and is a permutation of the chat's messages copied for the user; each entry has the chat id and `IsMyMessage` equal to (sender == user id) |
| `MessageStore.HistoryResultSpec` | Messenger_Meowtalk.Server/Services/MessageService.cs:75-98 | the copies of a chat's messages, ordered by timestamp, are sorted, are a permutation of the copied chat messages, carry the chat id, and mark exactly the user's own messages |
| `MessageStore.MessageService.ClearChatHistoryAsync` | Messenger_Meowtalk.Server/Services/MessageService.cs:110-146 | removes exactly the chat's non-System messages and the encrypted rows pointing to them, commits, and keeps the invariant and the row references |
| `MessageStore.MessageService.UpdateMessageAsync` | Messenger_Meowtalk.Server/Services/MessageService.cs:147-221 | returns false, changing nothing, when there is no target; otherwise replaces only content, edited flag and edit time of the target, and re-encrypts as `ReencryptRows` |
| `MessageStore.MessageService.DeleteMessageAsync` | Messenger_Meowtalk.Server/Services/MessageService.cs:222-250 | returns false, changing nothing, for an unknown id; otherwise removes the message and every encrypted row of it; afterwards no message has the id |
| `MessageStore.MessageService.EncryptForMembers` | Messenger_Meowtalk.Server/Services/MessageService.cs:273-291 | the inner loop computes `MigrateMembers` on keys and rows |
| `MessageStore.MessageService.MigrateExistingMessagesToEncrypted` | Messenger_Meowtalk.Server/Services/MessageService.cs:251-303 | keys and rows become `MigrateMessages` of the messages without rows; messages, users, chats and memberships are unchanged |
| `ServerHost.UserNamed` | Messenger_Meowtalk.Server/Program.cs:318 | the first user with the name, or none exactly when no user has it |
| `ServerHost.UserNamedUnique` | Messenger_Meowtalk.Server/Program.cs:318 | with unique names, a user's name finds that user |
| `ServerHost.RegisterUserSpec` | Messenger_Meowtalk.Server/Program.cs:314-342 | registration keeps ids and names unique; the returned id is that of the user now under the name; a known name inserts nothing; no user is lost |
| `ServerHost.RegisterUserIdempotent` | Messenger_Meowtalk.Server/Program.cs:314-342 | registering the same name again, with any Guid, inserts nothing and returns the same id |
| `ServerHost.UniqueConcat` | Messenger_Meowtalk.Server/Data/ChatDBContext.cs:27-29 | appending fresh, distinct pairs keeps the unique (UserId, ChatId) index |
| `ServerHost.UserMembershipsSpec` | Messenger_Meowtalk.Server/Program.cs:355-374 | one user's pass adds distinct, fresh pairs for stored chats, and afterwards the user is a member of every chat with a non-empty id |
| `ServerHost.MissingMembershipsRefer` | Messenger_Meowtalk.Server/Program.cs:353-376 | every added membership names a listed user and a listed chat |
| `ServerHost.MissingMembershipsFresh` | Messenger_Meowtalk.Server/Program.cs:359-373 | the added pairs are distinct and none was stored before |
| `ServerHost.MissingMembershipsCover` | Messenger_Meowtalk.Server/Program.cs:353-376 | afterwards every (user, chat) pair with non-empty ids has a membership |
| `ServerHost.MissingMembershipsSpec` | Messenger_Meowtalk.Server/Program.cs:344-387 | the three together: unique index kept, references valid, full coverage |
| `ServerHost.NewChatMembershipsSpec` | Messenger_Meowtalk.Server/Program.cs:416-458 | a new chat gets one membership per user with a non-empty id, no pair is duplicated, and each added row names a stored user and the chat |
| `ServerHost.ChatsOfUser` | Messenger_Meowtalk.Server/Program.cs:156-159 | exactly the chats the user is a member of |
| `ServerHost.SurvivorPositionsSpec` | Messenger_Meowtalk.Server/Program.cs:467-486 | the kept positions are increasing, and they are exactly the connected users whose name is stored |
| `ServerHost.SyncedUsersSpec` | Messenger_Meowtalk.Server/Program.cs:460-492 | after sync, the connected list is the survivors in their original order, each with the stored user's id |
| `ServerHost.SyncedUsersRegistered` | Messenger_Meowtalk.Server/Program.cs:467-476 | each remaining connected user's name is stored, and its id equals that stored user's id |
| `ServerHost.SyncedUsersUnique` | Messenger_Meowtalk.Server/Program.cs:460-492 | sync keeps connected usernames unique |
| `ServerHost.Routed` | Messenger_Meowtalk.Server/Program.cs:120-123 | only the chat id changes, and only when it is empty; the routed chat id is never empty |
| `ServerHost.ParticipantIds` | Messenger_Meowtalk.Server/Program.cs:175-178 | the ids are exactly the non-empty ids of connected users, and there are no more of them than connected users |
| `ServerHost.ParticipantIdsConcat` | Messenger_Meowtalk.Server/Program.cs:175-178 | the ids of two lists are the ids of the first followed by those of the second, so the list order is kept |
| `ServerHost.ParticipantIdsSingle` | Messenger_Meowtalk.Server/Program.cs:175-178 | one connected user contributes its id exactly when that id is not empty |
| `ServerHost.FirstMembership` | Messenger_Meowtalk.Server/Program.cs:359-360 | finds a membership of the pair exactly when one exists |
| `ServerHost.MembershipsKeepReferences` | Messenger_Meowtalk.Server/Data/ChatDBContext.cs:31-41 | adding users or chats keeps the membership foreign keys |
| `ServerHost.AppendedMembershipsRefer` | Messenger_Meowtalk.Server/Data/ChatDBContext.cs:31-41 | appending memberships that name stored rows keeps the foreign keys |
| `ServerHost.Server.constructor` | Messenger_Meowtalk.Server/Program.cs:19-21 | empty history and connected list over a valid database |
| `ServerHost.Server.LoadConnectedUsersFromDatabase` | Messenger_Meowtalk.Server/Program.cs:83-96 | the connected list becomes the stored users |
| `ServerHost.Server.SaveUserToDatabase` | Messenger_Meowtalk.Server/Program.cs:314-342 | returns and inserts as `RegisteredId` and `RegisteredUsers`; other tables unchanged |
| `ServerHost.CollectUserMemberships` | Messenger_Meowtalk.Server/Program.cs:354-374 | the inner loop collects, in chat order, exactly `UserMemberships` of the user |
| `ServerHost.CollectMissingMemberships` | Messenger_Meowtalk.Server/Program.cs:352-375 | the outer loop collects, user by user, exactly `MissingMemberships` |
| `ServerHost.CollectNewChatMemberships` | Messenger_Meowtalk.Server/Program.cs:427-447 | the loop collects, in user order, exactly `NewChatMemberships` of the chat |
| `ServerHost.Server.EnsureUserChatRelationships` | Messenger_Meowtalk.Server/Program.cs:344-387 | appends `MissingMemberships` of the saved rows, in loop order, and keeps the invariant |
| `ServerHost.Server.CreateUserChatRelationshipsForNewChat` | Messenger_Meowtalk.Server/Program.cs:416-458 | appends `NewChatMemberships` when the chat exists, else nothing |
| `ServerHost.Server.SyncConnectedUsersWithDatabase` | Messenger_Meowtalk.Server/Program.cs:460-492 | the connected list becomes `SyncedUsers` |
| `ServerHost.Server.AddChatIfMissing` | Messenger_Meowtalk.Server/Program.cs:225-235 | the chat exists afterwards, and is added only when it was missing |
| `ServerHost.Server.AddMembershipIfMissing` | Messenger_Meowtalk.Server/Program.cs:251-264 | the membership exists afterwards, and is added only when it was missing |
| `ServerHost.Server.ConnectIfAbsent` | Messenger_Meowtalk.Server/Program.cs:266-270 | a user is added to the connected list only when no connected user has its name |
| `ServerHost.Server.HandleChatCreation` | Messenger_Meowtalk.Server/Program.cs:221-282 | ensures the chat named "Чат <id>", registers the creator, ensures the creator's membership, and connects the creator at most once by name; a failed registration adds no membership |
| `ServerHost.Server.EnsureFrameChat` | Messenger_Meowtalk.Server/Program.cs:125-132 | a missing chat is added as "Новый чат" together with `NewChatMemberships` |
| `ServerHost.Server.HandleSystemFrame` | Messenger_Meowtalk.Server/Program.cs:134-166 | registers the sender; on a join of an unknown name, connects it with the registered id, and returns the chats whose history is replayed |
| `ServerHost.Server.HandleTextFrame` | Messenger_Meowtalk.Server/Program.cs:169-194 | syncs the connected users; without participants stores the raw message with no encrypted rows, otherwise saves it through the message service for the participants |
| `ServerHost.CreationStage` | Messenger_Meowtalk.Server/Program.cs:221-282 | the state a chat-creation frame leaves: the chat, the registered creator, the creator's membership and the connected creator, or only the chat when the creator's insert fails; `HandleChatCreation` ends in it |
| `ServerHost.FrameChatStage` | Messenger_Meowtalk.Server/Program.cs:125-132 | a missing chat added as "Новый чат" with a membership for every user; `EnsureFrameChat` ends in it |
| `ServerHost.PreparedStage` | Messenger_Meowtalk.Server/Program.cs:113-132 | the creation step for a System frame announcing a chat, then the frame chat step on the routed chat id |
| `ServerHost.Server.PrepareFrame` | Messenger_Meowtalk.Server/Program.cs:113-132 | users, chats, memberships and the connected list become `PreparedStage` of the old ones; the routed chat exists; messages, rows and history are unchanged |
| `ServerHost.Server.DispatchFrame` | Messenger_Meowtalk.Server/Program.cs:134-194 | a System frame registers its sender and, on a join, connects it and returns the chats to replay; a Text frame syncs the connected list and stores the message as `HandleTextFrame` says; any other frame changes nothing; chats and history are unchanged |
| `ServerHost.Server.HandleFrame` | Messenger_Meowtalk.Server/Program.cs:113-199 | the routed frame is appended to the history and its chat exists; the `prepared` stage is `PreparedStage` of the old state; from it, a System frame's registration, join and replay, a Text frame's sync and storage (raw without participants, through `SaveMessageAsync` with the participants' ids otherwise), and no change for any other frame, each stated in full |
| `ClientChat.FindChat` | Messenger_Meowtalk.Client/ViewModels/MainViewModel.cs:405 | the index of a chat with the id, or none exactly when no chat has it |
| `ClientChat.FindChatDistinct` | Messenger_Meowtalk.Client/ViewModels/MainViewModel.cs:405 | with distinct chat ids, a chat's id finds that chat |
| `ClientChat.MessageWithId` | Messenger_Meowtalk.Client/ViewModels/MainViewModel.cs:244 | the first message with the id, or none exactly when no message has it |
| `ClientChat.IsImagePath` | Messenger_Meowtalk.Client/ViewModels/MainViewModel.cs:347-352 | the lower-cased text ends in ".png", ".jpg" or ".jpeg"; `IsImagePathIgnoresCase` and `UpperCaseExtensionIsImage` state its behaviour |
| `ClientChat.IsImagePathIgnoresCase` | Messenger_Meowtalk.Client/ViewModels/MainViewModel.cs:347-352 | the image-extension test ignores letter case |
| `ClientChat.UpperCaseExtensionIsImage` | Messenger_Meowtalk.Client/ViewModels/MainViewModel.cs:347-352 | ".PNG" and ".JPEG" file names count as images |
| `ClientChat.Reclassified` | Messenger_Meowtalk.Client/ViewModels/MainViewModel.cs:184-204 | only the type changes, and only from Text to Sticker; the result is a Sticker exactly when the input was a Sticker, or a Text with image media type, the sticker prefix or an image extension |
| `ClientChat.RouteOf` | Messenger_Meowtalk.Client/ViewModels/MainViewModel.cs:157-204 | the route of an incoming frame, in the order the code tries them: sync edit, sync delete, sync clear, creation of the reclassified frame, else delivery; `SyncRoutesDisjoint` shows the sync tests exclude each other |
| `ClientChat.SyncRoutesDisjoint` | Messenger_Meowtalk.Client/ViewModels/MainViewModel.cs:157-182 | the three sync prefixes exclude each other, so the order of the tests does not matter |
| `ClientChat.SyncEdited` | Messenger_Meowtalk.Client/ViewModels/MainViewModel.cs:236-286 | the chats after a sync edit; `SyncEditSpec` states the result |
| `ClientChat.SyncEditSpec` | Messenger_Meowtalk.Client/ViewModels/MainViewModel.cs:236-286 | sync edit replaces the target in place with the sync's original content, edited flag and edit time, keeping every other field; every other message, including a later one with the same id, every other chat and the lengths are unchanged; a missing chat or message changes nothing |
| `ClientChat.SyncEditTargetsId` | Messenger_Meowtalk.Client/ViewModels/MainViewModel.cs:240 | the sync-edit prefix followed by an id gives back that id |
| `ClientChat.SyncDeleted` | Messenger_Meowtalk.Client/ViewModels/MainViewModel.cs:288-315 | the chats after a sync delete; `SyncDeleteSpec` states the result |
| `ClientChat.SyncDeleteSpec` | Messenger_Meowtalk.Client/ViewModels/MainViewModel.cs:288-315 | sync delete removes exactly the first message with the id, keeping the order of the rest, or changes nothing |
| `ClientChat.SyncCleared` | Messenger_Meowtalk.Client/ViewModels/MainViewModel.cs:317-345 | the chats after a sync clear; `SyncClearSpec` states the result |
| `ClientChat.SyncClearSpec` | Messenger_Meowtalk.Client/ViewModels/MainViewModel.cs:317-345 | sync clear leaves the chat holding exactly one System message "<sender> очистил историю чата"; other chats are unchanged |
| `ClientChat.FirstMarkerAfter` | Messenger_Meowtalk.Client/ViewModels/MainViewModel.cs:390 | the first occurrence of "создал чат" is right after a prefix that does not contain it |
| `ClientChat.ExtractChatIdFromCreationMessage` | Messenger_Meowtalk.Client/ViewModels/MainViewModel.cs:386-401 | the trimmed part after the marker when the text splits into exactly two non-empty parts, else none; `ExtractCreationRoundTrip` shows it recovers the id |
| `ClientChat.ExtractCreationRoundTrip` | Messenger_Meowtalk.Client/ViewModels/MainViewModel.cs:386-401 | the id is extracted back, trimmed, from the creation text "<user> создал чат <id>" whenever neither part contains the marker |
| `ClientChat.ChatCreated` | Messenger_Meowtalk.Client/ViewModels/MainViewModel.cs:354-384 | the chats after a creation frame; `ChatCreatedSpec` states the result |
| `ClientChat.GetChatDisplayName` | Messenger_Meowtalk.Client/ViewModels/MainViewModel.cs:421-430 | "Общий чат" for "general"; for a private id, "Приватный чат" with the first six characters left after removing every occurrence of the prefix, or none with fewer than six; otherwise "Чат" and the id |
| `ClientChat.ChatCreatedSpec` | Messenger_Meowtalk.Client/ViewModels/MainViewModel.cs:354-384 | creation is a no-op for a missing, empty or known id; otherwise the new chat, holding only the welcome notice, goes first and chat ids stay distinct |
| `ClientChat.PrivateChatDisplayName` | Messenger_Meowtalk.Client/ViewModels/MainViewModel.cs:421-430 | for an id with the private prefix whose rest does not contain the prefix again, the name is the first six characters of the rest; with fewer than six there is no name |
| `ClientChat.MoveToFront` | Messenger_Meowtalk.Client/ViewModels/MainViewModel.cs:432-439 | the chat at the index, then the others in order; `MoveToFrontSpec` states the result |
| `ClientChat.MoveToFrontSpec` | Messenger_Meowtalk.Client/ViewModels/MainViewModel.cs:432-439 | the chat is first, the length is unchanged, the others keep their relative order, and the list is a permutation |
| `ClientChat.AppendedKeepsIds` | Messenger_Meowtalk.Client/ViewModels/MainViewModel.cs:206-210 | appending to a chat keeps chat ids and positions |
| `ClientChat.Delivered` | Messenger_Meowtalk.Client/ViewModels/MainViewModel.cs:206-233 | the chats after delivering a message, or none when the chat is missing and has no display name; `DeliveredSpec` states the result |
| `ClientChat.DeliveredSpec` | Messenger_Meowtalk.Client/ViewModels/MainViewModel.cs:206-233 | the message's chat ends up first; a known chat gains the message unless it already holds one with the same id other than "0"; an unknown chat is created holding only the message; delivery fails only when no display name exists |
| `ClientChat.EditedAllKeepsOriginal` | Messenger_Meowtalk.Client/ViewModels/MainViewModel.cs:490-498 | after any run of edits, the original content is the content before the first edit, and the last edit's content and time are current |
| `ClientChat.SameChatIds` | Messenger_Meowtalk.Client/ViewModels/MainViewModel.cs:264-268 | in-place changes that keep every chat id keep ids distinct and lookups unchanged |
| `ClientChat.SelectedStaysListed` | Messenger_Meowtalk.Client/ViewModels/MainViewModel.cs:432-439 | reordering the chats keeps the selected chat listed |
| `ClientChat.MainViewModel.constructor` | Messenger_Meowtalk.Client/ViewModels/MainViewModel.cs:96-128 | the list holds only the empty general chat, which is selected, and edit mode is off |
| `ClientChat.MainViewModel.HandleSyncEditMessage` | Messenger_Meowtalk.Client/ViewModels/MainViewModel.cs:236-286 | the chats become `SyncEdited`; selection and edit fields are unchanged |
| `ClientChat.MainViewModel.HandleSyncDeleteMessage` | Messenger_Meowtalk.Client/ViewModels/MainViewModel.cs:288-315 | the chats become `SyncDeleted`; selection and edit fields are unchanged |
| `ClientChat.MainViewModel.HandleSyncClearChatHistory` | Messenger_Meowtalk.Client/ViewModels/MainViewModel.cs:317-345 | the chats become `SyncCleared`; selection and edit fields are unchanged |
| `ClientChat.MainViewModel.HandleChatCreationMessage` | Messenger_Meowtalk.Client/ViewModels/MainViewModel.cs:354-384 | the chats become `ChatCreated`, and the new chat is selected only when the current user created it |
| `ClientChat.MainViewModel.FindOrCreateChatForMessage` | Messenger_Meowtalk.Client/ViewModels/MainViewModel.cs:403-419 | returns the message's chat; a missing one is inserted first with its display name, or none when the name cannot be formed |
| `ClientChat.MainViewModel.MoveChatToTop` | Messenger_Meowtalk.Client/ViewModels/MainViewModel.cs:432-439 | a listed chat moves to the front; otherwise nothing changes |
| `ClientChat.MainViewModel.ProcessIncomingMessage` | Messenger_Meowtalk.Client/ViewModels/MainViewModel.cs:155-234 | each route does exactly its own change: sync edit, delete or clear, chat creation, or delivery of the reclassified message; only creation changes the selection |
| `ClientChat.MainViewModel.DeliverMessage` | Messenger_Meowtalk.Client/ViewModels/MainViewModel.cs:206-233 | the chats become `Delivered`, or stay as they were when no chat can be made |
| `ClientChat.MainViewModel.CanSendMessage` | Messenger_Meowtalk.Client/ViewModels/MainViewModel.cs:450-464 | a message can be sent exactly when its text is not blank and, in edit mode, a message is being edited, or otherwise a chat is selected |
| `ClientChat.MainViewModel.EditMessage` | Messenger_Meowtalk.Client/ViewModels/MainViewModel.cs:529-538 | editing a Text message enters edit mode with its content in the box; any other message changes nothing |
| `ClientChat.MainViewModel.CancelEdit` | Messenger_Meowtalk.Client/ViewModels/MainViewModel.cs:583-588 | edit mode off, no message being edited, empty text |
| `ClientChat.MainViewModel.EditCurrentMessage` | Messenger_Meowtalk.Client/ViewModels/MainViewModel.cs:480-515 | a blank or unchanged text just cancels; otherwise the edited copy keeps the original content of the first edit and is sent, and a delivered edit leaves edit mode |
| `Login.LoginViewModel.constructor` | Messenger_Meowtalk.Client/ViewModels/LoginViewModel.cs:8-9 | empty name, no current user |
| `Login.LoginViewModel.Login` | Messenger_Meowtalk.Client/ViewModels/LoginViewModel.cs:11-32 | succeeds exactly when the name is not blank and has at least two UTF-16 units; success sets the user to the trimmed name, online; failure leaves the user unchanged |
| `Login.AcceptedNameNotBlank` | Messenger_Meowtalk.Client/ViewModels/LoginViewModel.cs:13-25 | an accepted name never trims to the empty name |
| `Login.PaddedOneLetterAccepted` | Messenger_Meowtalk.Client/ViewModels/LoginViewModel.cs:18-25 | " a" is accepted and logs in as "a", because the length is checked before trimming |
| `Login.OneBmpCharRejected` | Messenger_Meowtalk.Client/ViewModels/LoginViewModel.cs:18-21 | a one-character name from the Basic Multilingual Plane is rejected |
| `Login.OneAstralCharAccepted` | Messenger_Meowtalk.Client/ViewModels/LoginViewModel.cs:18-21 | a one-character name outside the Basic Multilingual Plane, such as an emoji, is accepted |
| `NewChat.OtherUsers` | Messenger_Meowtalk.Client/NewChatWindow.xaml.cs:25 | exactly the input names other than the current user |
| `NewChat.OtherUsersConcat` | Messenger_Meowtalk.Client/NewChatWindow.xaml.cs:25 | the filter keeps input order |
| `NewChat.SelectedNames` | Messenger_Meowtalk.Client/NewChatWindow.xaml.cs:15-18 | exactly the names of the checked users |
| `NewChat.SelectedNamesConcat` | Messenger_Meowtalk.Client/NewChatWindow.xaml.cs:15-18 | the selected names keep list order: those of a concatenation are those of its parts, one after the other |
| `NewChat.SelectedNamesSingle` | Messenger_Meowtalk.Client/NewChatWindow.xaml.cs:15-18 | one entry gives its name exactly when it is checked, so the count is the number of checked entries |
| `NewChat.NewChatWindow.constructor` | Messenger_Meowtalk.Client/NewChatWindow.xaml.cs:20-41 | every other user is offered unchecked, in input order, and the current user is never offered |
| `NewChat.NewChatWindow.ChatName` | Messenger_Meowtalk.Client/NewChatWindow.xaml.cs:13 | a private chat has the empty name |
| `NewChat.NewChatWindow.SelectedUsers` | Messenger_Meowtalk.Client/NewChatWindow.xaml.cs:15-18 | the checked users' names, never the current user; it is `SelectedNames` of the list, so the order is that of `SelectedNamesConcat` |
| `NewChat.NewChatWindow.CreateButtonClick` | Messenger_Meowtalk.Client/NewChatWindow.xaml.cs:43-74 | accepts exactly a group with a non-blank name and a selection, or a private chat with exactly one selected user; the dialog result becomes true only on acceptance |
| `NewChat.NewChatWindow.CancelButtonClick` | Messenger_Meowtalk.Client/NewChatWindow.xaml.cs:76-80 | the dialog result becomes false |
| `NewChat.AcceptedPrivateChatIsWithAnother` | Messenger_Meowtalk.Client/NewChatWindow.xaml.cs:63-72 | an accepted private chat names exactly one user, who is not the current user |

## Left out

- Sockets and concurrency are not modelled:
  - the HttpListener loop, `ReceiveAsync`, `SendAsync` and `BroadcastMessage`;
  - the transmission inside `SendChatHistory` (`HandleSystemFrame` returns the chats whose history would be sent, and `GetUserMessagesAsync` models the content);
  - `GetLocalIPAddress` and the `_clients` list;
  - `Task.Delay`;
  - one `Task.Run` per client over unsynchronised static lists. The model runs one frame at a time.
- Entity Framework internals are not modelled:
  - each `SaveChanges` is atomic;
  - a failed save is reported and changes nothing. The context that keeps a failed entity pending is not modelled;
  - exceptions caught and logged are modelled only where a key violation can cause them.
- `ServerHost.Server.HandleChatCreation`: the replay of history to the first client socket is not modelled.
- `ServerHost.Server.HandleTextFrame`: the catch block is modelled only for the duplicate-id failure.
- Frames are values. A connected `User` object shared between lists, and the
  `Remove(object)` of sync, become value copies. A null chat id in a creation frame is
  the empty string.
- `MessageStore.MessageService.ClearChatHistoryAsync` always commits, because database failures are not modelled; the rollback path that returns false is not reachable in the model.
- `MessageStore.MessageService.GetUserMessagesAsync` states sortedness and the permutation but not the stability of `OrderBy` among equal timestamps, and the empty list returned on an exception is not modelled.
- Cryptography is symbolic. PBKDF2 (section 5.2 of RFC 2898) and AES-CBC (FIPS 197) are
  uninterpreted terms, and padding and stream details are not modelled.
- `ClientChat.MainViewModel.EditCurrentMessage`: the network call that sends the edit is not part of this model; its outcome is the parameter `delivered`.
- Client network operations are not part of this model: `StartNewChat`, `SendNewMessage`,
  `DeleteMessageAsync` on the client, `InsertEmoji`, and everything in ChatService.cs and
  WebSoketSevice.cs.
- UI effects are not modelled: `Dispatcher.Invoke`, message boxes, notifications, focus,
  property-change events, `InitializeEmojis` and `InitializeTestChats`.
- The selected chat is modelled by its id, and the message being edited is a copy. The
  aliasing of `EditingMessage` into a chat's message list is not modelled.
- `ClientChat.GetChatDisplayName`: `Substring(0, 6)` is taken on Unicode scalar values, not UTF-16 code units. For a too-short private id the model only drops the frame. The code throws inside `Dispatcher.Invoke`, the exception leaves the receive loop of `ChatService`, and the client stops receiving every later frame; that loss of the connection is not modelled.
- `ClientChat.MainViewModel.CanSendMessage`: the `_chatService != null` conjunct is always true in the model, since the view model always has its chat service.
- `Encryption.Utf8Decode`: malformed UTF-8 makes decoding fail, where the reader substitutes U+FFFD. A UTF-16 or UTF-32 byte-order mark, which the reader would also detect, cannot start the UTF-8 bytes of a text.
- Lone surrogates: a .NET string may hold one, a Dafny string cannot. `Encoding.UTF8.GetBytes` turns it into U+FFFD, so distinct .NET strings can share a key or a ciphertext; `Encryption.Utf8Injective` and `Encryption.DerivedKeysDistinct` hold for strings of scalar values only.
- `Encryption.EncryptionService.DecryptMessage`: under the right key but a wrong IV, real AES-CBC garbles only the first block, the padding stays valid and `StreamReader` replaces invalid UTF-8, so the code returns a garbled text. The symbolic cipher fails instead, so the model does not capture that case.
- StartsWith and EndsWith: the code calls the culture-sensitive overloads, which skip ignorable characters such as zero-width joiners. The model compares character by character, so a prefix split by such a character is not recognised in the model.
- `ClientChat.IsImagePath`: `ToLower` is modelled on ASCII letters only, which is all the three extensions need.
- The dialog's message boxes and `Close()` are not modelled; the radio button, text box and
  check boxes are the fields the window's bindings set.
