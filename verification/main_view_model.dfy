/**
 * The client's chat list (MainViewModel.cs): how a frame received from the server is
 * classified and applied to the list of chats, how chats are created, named and moved
 * to the top, and the fields of the edit mode.
 *
 * A client chat is a value holding its message list; `SelectedChat` is modelled by the
 * selected chat's id (chat ids in the list are distinct). Dispatcher calls, property
 * notifications, notifications and focus calls do nothing to the state and are not part
 * of this model. `DateTime.Now` and the Guid a new `Message` gets as its default id are
 * parameters.
 */
module ClientChat {
  import opened Common
  import opened Strings
  import opened Models

  const SyncEditPrefix: string := "sync_edit_message:"
  const SyncDeletePrefix: string := "sync_delete_message:"
  const SyncClearContent: string := "sync_clear_chat_history"
  const StickerPrefix: string := "[STICKER]"
  const ImageMediaType: string := "image"
  const CreationMarker: string := "создал чат"
  const PrivatePrefix: string := "private_"
  const GeneralChatId: string := "general"
  const GeneralChatName: string := "Общий чат"
  const SystemSender: string := "System"
  const WelcomeText: string := "Чат создан. Начните общение!"
  const ClearedText: string := " очистил историю чата"

  /** A chat as the client holds it: id, display name and its messages in order. */
  datatype ClientChat = ClientChat(chatId: string, name: string, messages: seq<Message>)

  predicate DistinctChatIds(chats: seq<ClientChat>) {
    forall i, j :: 0 <= i < j < |chats| ==> chats[i].chatId != chats[j].chatId
  }

  /** `Chats.FirstOrDefault(c => c.ChatId == chatId)` as an index. */
  function FindChat(chats: seq<ClientChat>, chatId: string): (r: Option<nat>)
    ensures r.Some? ==> r.value < |chats| && chats[r.value].chatId == chatId
    ensures r.None? <==> forall i :: 0 <= i < |chats| ==> chats[i].chatId != chatId
  {
    FirstIndex(chats, (c: ClientChat) => c.chatId == chatId)
  }

  lemma FindChatDistinct(chats: seq<ClientChat>, i: nat)
    requires DistinctChatIds(chats) && i < |chats|
    ensures FindChat(chats, chats[i].chatId) == Some(i)
  {
  }

  /** `Messages.FirstOrDefault(m => m.Id == id)` as an index. */
  function MessageWithId(messages: seq<Message>, id: string): (r: Option<nat>)
    ensures r.Some? ==> r.value < |messages| && messages[r.value].id == Some(id)
    ensures r.Some? ==> forall k :: 0 <= k < r.value ==> messages[k].id != Some(id)
    ensures r.None? <==> forall k :: 0 <= k < |messages| ==> messages[k].id != Some(id)
  {
    FirstIndex(messages, (m: Message) => m.id == Some(id))
  }

  // =================================================================================
  // Classification (lines 155-204, 347-352)

  /** Lines 347-352: an image file name, ignoring the case of ASCII letters. */
  predicate IsImagePath(content: string) {
    var lower := ToLowerAscii(content);
    EndsWith(lower, ".png") || EndsWith(lower, ".jpg") || EndsWith(lower, ".jpeg")
  }

  lemma ToLowerAsciiIdempotent(s: string)
    ensures ToLowerAscii(ToLowerAscii(s)) == ToLowerAscii(s)
  {
  }

  /** The extension test does not depend on the case of the name. */
  lemma IsImagePathIgnoresCase(s: string)
    ensures IsImagePath(ToLowerAscii(s)) <==> IsImagePath(s)
  {
    ToLowerAsciiIdempotent(s);
  }

  /** A name ending in an upper-case extension is an image path. */
  lemma UpperCaseExtensionIsImage(name: string)
    ensures IsImagePath(name + ".PNG") && IsImagePath(name + ".JPEG")
  {
    var png := ToLowerAscii(name + ".PNG");
    assert png[|png| - 4..] == ".png" by {
      forall k | 0 <= k < 4 ensures png[|png| - 4 + k] == ".png"[k] {
        assert (name + ".PNG")[|name| + k] == ".PNG"[k];
      }
    }
    var jpeg := ToLowerAscii(name + ".JPEG");
    assert jpeg[|jpeg| - 5..] == ".jpeg" by {
      forall k | 0 <= k < 5 ensures jpeg[|jpeg| - 5 + k] == ".jpeg"[k] {
        assert (name + ".JPEG")[|name| + k] == ".JPEG"[k];
      }
    }
  }

  /** Lines 184-195: a Text frame that carries an image or a sticker becomes a Sticker. */
  function Reclassified(message: Message): (r: Message)
    ensures r == message.(msgType := r.msgType)
    ensures r.msgType != message.msgType ==> message.msgType == Text && r.msgType == Sticker
    ensures r.msgType == Sticker <==>
      || message.msgType == Sticker
      || (&& message.msgType == Text
          && (|| message.mediaType == ImageMediaType
              || (message.content != "" && (StartsWith(message.content, StickerPrefix) || IsImagePath(message.content)))))
  {
    if message.msgType == Text && message.mediaType != "" && message.mediaType == ImageMediaType then
      message.(msgType := Sticker)
    else if message.msgType == Text && message.content != "" &&
            (StartsWith(message.content, StickerPrefix) || IsImagePath(message.content)) then
      message.(msgType := Sticker)
    else message
  }

  /** Where `ProcessIncomingMessage` sends a frame. */
  datatype Route = SyncEdit | SyncDelete | SyncClear | Creation | Deliver

  /** Lines 157-204: the first matching test decides, and a matching branch returns. */
  function RouteOf(message: Message): Route {
    if message.msgType == MessageType.System && StartsWith(message.content, SyncEditPrefix) then SyncEdit
    else if message.msgType == MessageType.System && StartsWith(message.content, SyncDeletePrefix) then SyncDelete
    else if message.msgType == MessageType.System && message.content == SyncClearContent then SyncClear
    else if Reclassified(message).msgType == MessageType.System && Contains(message.content, CreationMarker) then Creation
    else Deliver
  }

  /** At most one of the three synchronisation tests holds, so their order does not matter. */
  lemma SyncRoutesDisjoint(content: string)
    ensures !(StartsWith(content, SyncEditPrefix) && StartsWith(content, SyncDeletePrefix))
    ensures !(StartsWith(content, SyncEditPrefix) && content == SyncClearContent)
    ensures !(StartsWith(content, SyncDeletePrefix) && content == SyncClearContent)
  {
    if StartsWith(content, SyncEditPrefix) {
      assert content[5] == content[..|SyncEditPrefix|][5] == 'e';
    }
    if StartsWith(content, SyncDeletePrefix) {
      assert content[5] == content[..|SyncDeletePrefix|][5] == 'd';
    }
    if content == SyncClearContent {
      assert content[5] == 'c';
    }
  }

  // =================================================================================
  // Synchronisation frames (lines 236-345)

  /** Lines 249-261: the copy that replaces the edited message. */
  function SyncEditedCopy(previous: Message, sync: Message): Message {
    previous.(content := sync.originalContent, isEdited := sync.isEdited, editedTimestamp := sync.editedTimestamp)
  }

  /** Lines 240-268: the chat list after a `sync_edit_message:<id>` frame. */
  function SyncEdited(chats: seq<ClientChat>, sync: Message): seq<ClientChat> {
    var messageId := ReplaceAll(sync.content, SyncEditPrefix, "");
    match FindChat(chats, sync.chatId)
    case None => chats
    case Some(c) =>
      match MessageWithId(chats[c].messages, messageId)
      case None => chats
      case Some(j) =>
        chats[c := chats[c].(messages := chats[c].messages[j := SyncEditedCopy(chats[c].messages[j], sync)])]
  }

  /**
   * A sync edit replaces one message of the frame's chat at its own index: the new copy
   * takes the frame's OriginalContent as content and the frame's edit flag and time, and
   * keeps every other field. Every other message, including a later one with the same id,
   * and every other chat is unchanged; a missing chat or message leaves the list as it is.
   */
  lemma SyncEditSpec(chats: seq<ClientChat>, sync: Message)
    ensures var r := SyncEdited(chats, sync);
      var messageId := ReplaceAll(sync.content, SyncEditPrefix, "");
      && |r| == |chats|
      && (forall k :: 0 <= k < |chats| ==> r[k].chatId == chats[k].chatId && r[k].name == chats[k].name)
      && (forall k :: 0 <= k < |chats| && chats[k].chatId != sync.chatId ==> r[k] == chats[k])
      && (FindChat(chats, sync.chatId).None? ==> r == chats)
      && (FindChat(chats, sync.chatId).Some? ==>
            var c := FindChat(chats, sync.chatId).value;
            var before := chats[c].messages;
            var after := r[c].messages;
            && |after| == |before|
            && (MessageWithId(before, messageId).None? ==> after == before)
            && (forall j :: (0 <= j < |before| &&
                  (MessageWithId(before, messageId).None? || j != MessageWithId(before, messageId).value)) ==>
                  after[j] == before[j])
            && (MessageWithId(before, messageId).Some? ==>
                  var j := MessageWithId(before, messageId).value;
                  && after[j].content == sync.originalContent
                  && after[j].isEdited == sync.isEdited
                  && after[j].editedTimestamp == sync.editedTimestamp
                  && after[j].id == before[j].id && after[j].sender == before[j].sender
                  && after[j].chatId == before[j].chatId && after[j].timestamp == before[j].timestamp
                  && after[j].msgType == before[j].msgType && after[j].isMyMessage == before[j].isMyMessage
                  && after[j].originalContent == before[j].originalContent
                  && after[j].mediaType == before[j].mediaType))
  {
  }

  /** The frame `sync_edit_message:<id>` targets the message `<id>`. */
  lemma SyncEditTargetsId(id: string)
    requires !Contains(id, SyncEditPrefix)
    ensures ReplaceAll(SyncEditPrefix + id, SyncEditPrefix, "") == id
  {
    ReplacePrefix(SyncEditPrefix, id);
  }

  /** Lines 292-299: the chat list after a `sync_delete_message:<id>` frame. */
  function SyncDeleted(chats: seq<ClientChat>, sync: Message): seq<ClientChat> {
    var messageId := ReplaceAll(sync.content, SyncDeletePrefix, "");
    match FindChat(chats, sync.chatId)
    case None => chats
    case Some(c) =>
      match MessageWithId(chats[c].messages, messageId)
      case None => chats
      case Some(j) =>
        chats[c := chats[c].(messages := chats[c].messages[..j] + chats[c].messages[j + 1..])]
  }

  /**
   * A sync delete removes exactly the first message with the id from the frame's chat:
   * the others stay in order, and nothing else changes. A missing chat or message leaves
   * the list as it is.
   */
  lemma SyncDeleteSpec(chats: seq<ClientChat>, sync: Message)
    ensures var r := SyncDeleted(chats, sync);
      var messageId := ReplaceAll(sync.content, SyncDeletePrefix, "");
      && |r| == |chats|
      && (forall k :: 0 <= k < |chats| ==> r[k].chatId == chats[k].chatId && r[k].name == chats[k].name)
      && (forall k :: 0 <= k < |chats| && chats[k].chatId != sync.chatId ==> r[k] == chats[k])
      && (FindChat(chats, sync.chatId).None? ==> r == chats)
      && (FindChat(chats, sync.chatId).Some? ==>
            var c := FindChat(chats, sync.chatId).value;
            var before := chats[c].messages;
            && (MessageWithId(before, messageId).None? ==> r == chats)
            && (MessageWithId(before, messageId).Some? ==>
                  var j := MessageWithId(before, messageId).value;
                  && |r[c].messages| == |before| - 1
                  && multiset(r[c].messages) + multiset{before[j]} == multiset(before)
                  && (forall k :: 0 <= k < j ==> r[c].messages[k] == before[k])
                  && (forall k :: j < k < |before| ==> r[c].messages[k - 1] == before[k])))
  {
    var messageId := ReplaceAll(sync.content, SyncDeletePrefix, "");
    match FindChat(chats, sync.chatId)
    case None =>
    case Some(c) =>
      match MessageWithId(chats[c].messages, messageId)
      case None =>
      case Some(j) =>
        RemovedAt(chats[c].messages, j);
  }

  /** Removing the message at `j` keeps the others, in order. */
  lemma RemovedAt(s: seq<Message>, j: nat)
    requires j < |s|
    ensures var t := s[..j] + s[j + 1..];
      && |t| == |s| - 1
      && multiset(t) + multiset{s[j]} == multiset(s)
      && (forall k :: 0 <= k < j ==> t[k] == s[k])
      && (forall k :: j < k < |s| ==> t[k - 1] == s[k])
  {
    assert s == s[..j] + [s[j]] + s[j + 1..];
  }

  /** Lines 324-332: the notice that replaces a cleared history. */
  function ClearNotice(sync: Message, now: int, noticeId: string): Message {
    Message(Some(noticeId), SystemSender, sync.sender + ClearedText, sync.chatId, now, MessageType.System,
            false, None, "", "", false)
  }

  /** Lines 319-332: the chat list after a `sync_clear_chat_history` frame. */
  function SyncCleared(chats: seq<ClientChat>, sync: Message, now: int, noticeId: string): seq<ClientChat> {
    match FindChat(chats, sync.chatId)
    case None => chats
    case Some(c) => chats[c := chats[c].(messages := [ClearNotice(sync, now, noticeId)])]
  }

  /**
   * A sync clear leaves the frame's chat holding exactly one System message, from
   * "System", announcing who cleared it; every other chat is unchanged.
   */
  lemma SyncClearSpec(chats: seq<ClientChat>, sync: Message, now: int, noticeId: string)
    ensures var r := SyncCleared(chats, sync, now, noticeId);
      && |r| == |chats|
      && (forall k :: 0 <= k < |chats| ==> r[k].chatId == chats[k].chatId && r[k].name == chats[k].name)
      && (forall k :: 0 <= k < |chats| && chats[k].chatId != sync.chatId ==> r[k] == chats[k])
      && (FindChat(chats, sync.chatId).None? ==> r == chats)
      && (FindChat(chats, sync.chatId).Some? ==>
            var after := r[FindChat(chats, sync.chatId).value].messages;
            && |after| == 1
            && after[0].msgType == MessageType.System
            && after[0].sender == SystemSender
            && after[0].content == sync.sender + ClearedText
            && after[0].chatId == sync.chatId)
  {
  }

  // =================================================================================
  // Chat creation (lines 354-401)

  /**
   * Lines 386-401: the trimmed text after the marker when splitting on it (empty parts
   * removed) gives exactly two parts; otherwise null.
   */
  function ExtractChatIdFromCreationMessage(content: string): (r: Option<string>) {
    var parts := SplitRemoveEmpty(content, CreationMarker);
    if |parts| == 2 then Some(Trim(parts[1])) else None
  }

  /** Line 682: the text a client sends when it starts a chat. */
  function CreationContent(username: string, chatId: string): string {
    username + " " + CreationMarker + " " + chatId
  }

  /** The marker's first letter occurs nowhere else in it, so occurrences cannot overlap it. */
  lemma MarkerHeadUnique()
    ensures forall k :: 1 <= k < |CreationMarker| ==> CreationMarker[k] != CreationMarker[0]
  {
  }

  /** No occurrence of the marker starts inside `a` in `a + marker + b` when `a` lacks it. */
  lemma FirstMarkerAfter(a: string, b: string)
    requires !Contains(a, CreationMarker)
    ensures IndexOf(a + CreationMarker + b, CreationMarker) == Some(|a|)
  {
    var s := a + CreationMarker + b;
    var m := CreationMarker;
    assert s[|a|..|a| + |m|] == m;
    assert OccursAt(s, m, |a|);
    MarkerHeadUnique();
    forall j | 0 <= j < |a| ensures !OccursAt(s, m, j) {
      if j + |m| <= |a| {
        assert s[j..j + |m|] == a[j..j + |m|];
        assert !OccursAt(a, m, j);
      } else {
        var k := |a| - j;
        assert s[j + k] == m[0] && m[k] != m[0];
        assert s[j..j + |m|][k] != m[k];
      }
    }
  }

  /** `u + " "` does not contain the marker when `u` does not: the marker does not end in a space. */
  lemma NoMarkerAfterSpace(u: string)
    requires !Contains(u, CreationMarker)
    ensures !Contains(u + " ", CreationMarker)
  {
    var s := u + " ";
    var m := CreationMarker;
    forall j | 0 <= j <= |s| ensures !OccursAt(s, m, j) {
      if j + |m| <= |u| {
        assert s[j..j + |m|] == u[j..j + |m|];
        assert !OccursAt(u, m, j);
      } else if j + |m| == |s| {
        assert s[j..j + |m|][|m| - 1] == s[|u|] == ' ' != m[|m| - 1];
      }
    }
  }

  /** `" " + id` does not contain the marker when `id` does not: the marker does not start with a space. */
  lemma NoMarkerBeforeSpace(id: string)
    requires !Contains(id, CreationMarker)
    ensures !Contains(" " + id, CreationMarker)
  {
    var s := " " + id;
    var m := CreationMarker;
    forall j | 0 <= j <= |s| ensures !OccursAt(s, m, j) {
      if j + |m| <= |s| {
        if j == 0 {
          assert s[j..j + |m|][0] == ' ' != m[0];
        } else {
          assert s[j..j + |m|] == id[j - 1..j - 1 + |m|];
          assert !OccursAt(id, m, j - 1);
        }
      }
    }
  }

  /**
   * The chat id a client puts into its creation text is the one every client extracts
   * from it (up to surrounding white space), provided neither the user name nor the id
   * contains the marker.
   */
  lemma ExtractCreationRoundTrip(username: string, chatId: string)
    requires !Contains(username, CreationMarker) && !Contains(chatId, CreationMarker)
    ensures ExtractChatIdFromCreationMessage(CreationContent(username, chatId)) == Some(Trim(chatId))
  {
    var a := username + " ";
    var b := " " + chatId;
    assert CreationContent(username, chatId) == a + CreationMarker + b;
    NoMarkerAfterSpace(username);
    NoMarkerBeforeSpace(chatId);
    FirstMarkerAfter(a, b);
    var s := a + CreationMarker + b;
    assert s[..|a|] == a;
    assert s[|a| + |CreationMarker|..] == b;
    assert SplitOn(b, CreationMarker) == [b];
    assert SplitOn(s, CreationMarker) == [a, b];
    assert RemoveEmpty([a, b]) == [a] + RemoveEmpty([b]) by { assert [a, b][1..] == [b]; }
    assert RemoveEmpty([b]) == [b] by { assert [b][1..] == []; }
    TrimLeadingSpace(chatId);
  }

  /** Line 365: the name of a chat created from a creation frame. */
  function CreatedChatName(chatId: string): string {
    "Чат " + ReplaceAll(chatId, PrivatePrefix, "")
  }

  /** Lines 368-375: the first message of a chat created from a creation frame. */
  function WelcomeNotice(now: int, noticeId: string): Message {
    Message(Some(noticeId), SystemSender, WelcomeText, "", now, MessageType.System, false, None, "", "", false)
  }

  /** Lines 356-360: the id of the chat a creation frame creates, if it creates one. */
  function CreatedChatId(chats: seq<ClientChat>, content: string): Option<string> {
    match ExtractChatIdFromCreationMessage(content)
    case None => None
    case Some(chatId) => if chatId == "" || FindChat(chats, chatId).Some? then None else Some(chatId)
  }

  /** Lines 354-384: the chat list after a creation frame. */
  function ChatCreated(chats: seq<ClientChat>, message: Message, now: int, noticeId: string): seq<ClientChat> {
    match CreatedChatId(chats, message.content)
    case None => chats
    case Some(chatId) => [ClientChat(chatId, CreatedChatName(chatId), [WelcomeNotice(now, noticeId)])] + chats
  }

  /**
   * A creation frame adds at most one chat, at the top, under a new non-empty id, and
   * keeps the chat ids distinct; a frame without an extractable id, or naming a chat
   * already listed, changes nothing.
   */
  lemma ChatCreatedSpec(chats: seq<ClientChat>, message: Message, now: int, noticeId: string)
    requires DistinctChatIds(chats)
    ensures var r := ChatCreated(chats, message, now, noticeId);
      && DistinctChatIds(r)
      && (CreatedChatId(chats, message.content).None? ==> r == chats)
      && (CreatedChatId(chats, message.content).Some? ==>
            var chatId := CreatedChatId(chats, message.content).value;
            && chatId != ""
            && ExtractChatIdFromCreationMessage(message.content) == Some(chatId)
            && (forall k :: 0 <= k < |chats| ==> chats[k].chatId != chatId)
            && |r| == |chats| + 1 && r[0].chatId == chatId && r[1..] == chats
            && r[0].messages == [WelcomeNotice(now, noticeId)])
  {
    var r := ChatCreated(chats, message, now, noticeId);
    if CreatedChatId(chats, message.content).Some? {
      assert r[1..] == chats;
    }
  }

  // =================================================================================
  // Delivery (lines 206-234, 403-439)

  /**
   * Lines 421-430: the display name of a chat first seen in a frame. The `Substring(0, 6)`
   * of a private chat's id throws when fewer than six characters follow the prefix.
   */
  function GetChatDisplayName(chatId: string, sender: string): Option<string> {
    if chatId == GeneralChatId then Some(GeneralChatName)
    else if StartsWith(chatId, PrivatePrefix) then
      var rest := ReplaceAll(chatId, PrivatePrefix, "");
      if |rest| < 6 then None else Some("Приватный чат " + rest[..6] + "...")
    else Some("Чат " + chatId)
  }

  /**
   * A private chat `private_<id>` is shown by the first six characters of `<id>`; with
   * fewer than six there is no name.
   */
  lemma PrivateChatDisplayName(id: string, sender: string)
    requires !Contains(id, PrivatePrefix)
    ensures GetChatDisplayName(PrivatePrefix + id, sender) ==
      if |id| < 6 then None else Some("Приватный чат " + id[..6] + "...")
  {
    assert (PrivatePrefix + id)[0] != GeneralChatId[0];
    assert (PrivatePrefix + id)[..|PrivatePrefix|] == PrivatePrefix;
    ReplacePrefix(PrivatePrefix, id);
  }

  /** Line 208: the chat already holds a message with the same id, and that id is not "0". */
  predicate IsDuplicate(messages: seq<Message>, message: Message) {
    exists k :: 0 <= k < |messages| && messages[k].id == message.id && message.id != Some("0")
  }

  /** Lines 432-439: the chat at index `i` taken out and put first. */
  function MoveToFront(chats: seq<ClientChat>, i: nat): seq<ClientChat>
    requires i < |chats|
  {
    [chats[i]] + chats[..i] + chats[i + 1..]
  }

  /** Where each chat of the list ends up after a move to the front. */
  lemma MoveToFrontIndices(chats: seq<ClientChat>, i: nat)
    requires i < |chats|
    ensures var r := MoveToFront(chats, i);
      && |r| == |chats|
      && r[0] == chats[i]
      && r[1..] == chats[..i] + chats[i + 1..]
      && (forall k :: 0 <= k < i ==> r[k + 1] == chats[k])
      && (forall k :: i < k < |chats| ==> r[k] == chats[k])
  {
    var r := MoveToFront(chats, i);
    assert r[1..] == chats[..i] + chats[i + 1..];
  }

  lemma MoveToFrontPermutes(chats: seq<ClientChat>, i: nat)
    requires i < |chats|
    ensures multiset(MoveToFront(chats, i)) == multiset(chats)
  {
    assert chats == chats[..i] + [chats[i]] + chats[i + 1..];
  }

  lemma MoveToFrontDistinct(chats: seq<ClientChat>, i: nat)
    requires i < |chats| && DistinctChatIds(chats)
    ensures DistinctChatIds(MoveToFront(chats, i))
  {
    var r := MoveToFront(chats, i);
    MoveToFrontIndices(chats, i);
    forall a, b | 0 <= a < b < |r| ensures r[a].chatId != r[b].chatId {
      var a' := if a == 0 then i else if a <= i then a - 1 else a;
      var b' := if b <= i then b - 1 else b;
      assert r[a] == chats[a'] && r[b] == chats[b'];
    }
  }

  /** A chat already at the top stays where it is. */
  lemma MoveToFrontFirst(chats: seq<ClientChat>)
    requires chats != []
    ensures MoveToFront(chats, 0) == chats
  {
    assert MoveToFront(chats, 0) == [chats[0]] + chats[1..];
  }

  /**
   * Moving a chat to the top puts it at index 0, keeps the length and the multiset of
   * chats, and keeps the other chats in their relative order.
   */
  lemma MoveToFrontSpec(chats: seq<ClientChat>, i: nat)
    requires i < |chats|
    ensures var r := MoveToFront(chats, i);
      && |r| == |chats|
      && r[0] == chats[i]
      && r[1..] == chats[..i] + chats[i + 1..]
      && multiset(r) == multiset(chats)
      && (DistinctChatIds(chats) ==> DistinctChatIds(r))
  {
    MoveToFrontIndices(chats, i);
    MoveToFrontPermutes(chats, i);
    if DistinctChatIds(chats) {
      MoveToFrontDistinct(chats, i);
    }
  }

  /** Lines 208-210: the chat at index `c` with the frame appended unless it is a duplicate. */
  function Appended(chats: seq<ClientChat>, c: nat, message: Message): seq<ClientChat>
    requires c < |chats|
  {
    if IsDuplicate(chats[c].messages, message) then chats
    else chats[c := chats[c].(messages := chats[c].messages + [message])]
  }

  /**
   * Lines 206-234: the chat list after delivering a frame. `None` when the frame's chat
   * is new and its display name throws, which drops the frame.
   */
  function Delivered(chats: seq<ClientChat>, message: Message): Option<seq<ClientChat>> {
    match FindChat(chats, message.chatId)
    case Some(c) => Some(MoveToFront(Appended(chats, c, message), c))
    case None =>
      match GetChatDisplayName(message.chatId, message.sender)
      case None => None
      case Some(name) => Some([ClientChat(message.chatId, name, [message])] + chats)
  }

  /** Appending keeps the chat ids, hence every lookup by id. */
  lemma AppendedKeepsIds(chats: seq<ClientChat>, c: nat, message: Message)
    requires c < |chats| && DistinctChatIds(chats)
    ensures DistinctChatIds(Appended(chats, c, message))
    ensures forall chatId :: FindChat(Appended(chats, c, message), chatId) == FindChat(chats, chatId)
  {
    SameChatIds(chats, Appended(chats, c, message));
  }

  /**
   * `Delivered` is the three steps of the source in turn: find or create the chat,
   * append, move the chat to the top.
   */
  lemma DeliveredInSteps(chats: seq<ClientChat>, s: seq<ClientChat>, c: nat, message: Message)
    requires DistinctChatIds(chats)
    requires FindChat(chats, message.chatId).Some? ==> s == chats && Some(c) == FindChat(chats, message.chatId)
    requires FindChat(chats, message.chatId).None? ==>
      && GetChatDisplayName(message.chatId, message.sender).Some?
      && s == [ClientChat(message.chatId, GetChatDisplayName(message.chatId, message.sender).value, [])] + chats
      && c == 0
    ensures c < |s| && s[c].chatId == message.chatId
    ensures Delivered(chats, message) == Some(MoveToFront(Appended(s, c, message), c))
  {
    if FindChat(chats, message.chatId).None? {
      NewChatDelivered(chats, GetChatDisplayName(message.chatId, message.sender).value, message);
    }
  }

  /** A frame for a new chat: the created chat holds just the frame and stays on top. */
  lemma NewChatDelivered(chats: seq<ClientChat>, name: string, message: Message)
    ensures var s := [ClientChat(message.chatId, name, [])] + chats;
      MoveToFront(Appended(s, 0, message), 0) == [ClientChat(message.chatId, name, [message])] + chats
  {
    var s := [ClientChat(message.chatId, name, [])] + chats;
    assert !IsDuplicate(s[0].messages, message);
    var a := Appended(s, 0, message);
    assert s[0].messages + [message] == [message];
    assert a == s[0 := s[0].(messages := [message])];
    assert a[1..] == s[1..] == chats;
    assert a[..0] == [];
  }

  /**
   * After a delivery the frame's chat is first and holds the frame at its end unless it
   * already held a message with the same id (other than "0"); a new chat is inserted at
   * the top, every other chat keeps its relative order, and the ids stay distinct.
   */
  lemma DeliveredSpec(chats: seq<ClientChat>, message: Message)
    requires DistinctChatIds(chats)
    ensures Delivered(chats, message).None? <==>
      FindChat(chats, message.chatId).None? && GetChatDisplayName(message.chatId, message.sender).None?
    ensures Delivered(chats, message).Some? ==>
      var r := Delivered(chats, message).value;
      && DistinctChatIds(r)
      && |r| > 0 && r[0].chatId == message.chatId
      && (FindChat(chats, message.chatId).None? ==>
            r[0].messages == [message] && r[1..] == chats &&
            Some(r[0].name) == GetChatDisplayName(message.chatId, message.sender))
      && (FindChat(chats, message.chatId).Some? ==>
            var c := FindChat(chats, message.chatId).value;
            && r[0].name == chats[c].name
            && r[0].messages == chats[c].messages + (if IsDuplicate(chats[c].messages, message) then [] else [message])
            && r[1..] == chats[..c] + chats[c + 1..])
  {
    match FindChat(chats, message.chatId)
    case Some(c) =>
      var s := Appended(chats, c, message);
      AppendedKeepsIds(chats, c, message);
      MoveToFrontSpec(s, c);
      assert s[..c] == chats[..c] && s[c + 1..] == chats[c + 1..];
    case None =>
      match GetChatDisplayName(message.chatId, message.sender)
      case None =>
      case Some(name) =>
        var r := [ClientChat(message.chatId, name, [message])] + chats;
        assert r[1..] == chats;
        forall a, b | 0 <= a < b < |r| ensures r[a].chatId != r[b].chatId {
          assert r[b] == chats[b - 1];
          if a > 0 { assert r[a] == chats[a - 1]; }
        }
  }

  // =================================================================================
  // Edit mode (lines 450-515, 529-538, 583-588)

  /** Lines 491-498: the message after an edit to `content` at time `now`. */
  function EditedMessage(m: Message, content: string, now: int): Message {
    m.(originalContent := if m.isEdited then m.originalContent else m.content,
       content := content, isEdited := true, editedTimestamp := Some(now))
  }

  /** Successive edits: each pair is the new content and the time of the edit. */
  function EditedAll(m: Message, edits: seq<(string, int)>): Message {
    if edits == [] then m
    else
      var n := |edits| - 1;
      EditedMessage(EditedAll(m, edits[..n]), edits[n].0, edits[n].1)
  }

  /**
   * However many times a message is edited, it shows the last content, is flagged as
   * edited, and keeps as OriginalContent the content it had before its first edit.
   */
  lemma {:induction false} EditedAllKeepsOriginal(m: Message, edits: seq<(string, int)>)
    requires edits != []
    ensures var r := EditedAll(m, edits);
      && r.isEdited
      && r.content == edits[|edits| - 1].0
      && r.editedTimestamp == Some(edits[|edits| - 1].1)
      && r.originalContent == (if m.isEdited then m.originalContent else m.content)
      && r.id == m.id && r.sender == m.sender && r.chatId == m.chatId && r.timestamp == m.timestamp
  {
    var n := |edits| - 1;
    if n > 0 {
      EditedAllKeepsOriginal(m, edits[..n]);
    }
  }

  class MainViewModel {
    /** `CurrentUser` */
    const currentUser: User
    /** `Chats` */
    var chats: seq<ClientChat>
    /** `SelectedChat`, by its chat id */
    var selectedChatId: Option<string>
    /** `MessageText`; null is modelled as "" */
    var messageText: string
    /** `EditingMessage` */
    var editingMessage: Option<Message>
    /** `IsEditingMode` */
    var isEditingMode: bool

    /** Chat ids in the list are distinct, and the selected chat is listed. */
    ghost predicate Valid()
      reads this
    {
      && DistinctChatIds(chats)
      && (selectedChatId.Some? ==> FindChat(chats, selectedChatId.value).Some?)
    }

    /** Lines 96-128 with `InitializeTestChats` (lines 732-745): the general chat, selected. */
    constructor (user: User)
      ensures Valid()
      ensures currentUser == user
      ensures chats == [ClientChat(GeneralChatId, GeneralChatName, [])]
      ensures selectedChatId == Some(GeneralChatId)
      ensures messageText == "" && editingMessage == None && !isEditingMode
    {
      currentUser := user;
      chats := [ClientChat(GeneralChatId, GeneralChatName, [])];
      selectedChatId := Some(GeneralChatId);
      messageText := "";
      editingMessage := None;
      isEditingMode := false;
    }

    /** Lines 236-286. */
    method HandleSyncEditMessage(sync: Message)
      requires Valid()
      modifies this
      ensures Valid()
      ensures chats == SyncEdited(old(chats), sync)
      ensures selectedChatId == old(selectedChatId)
      ensures messageText == old(messageText) && editingMessage == old(editingMessage) && isEditingMode == old(isEditingMode)
    {
      SyncEditSpec(chats, sync);
      var messageId := ReplaceAll(sync.content, SyncEditPrefix, "");
      var chat := FindChat(chats, sync.chatId);
      if chat.None? {
        return;
      }
      var c := chat.value;
      var messageToUpdate := MessageWithId(chats[c].messages, messageId);
      if messageToUpdate.Some? {
        var index := messageToUpdate.value;
        var updatedMessage := SyncEditedCopy(chats[c].messages[index], sync);
        chats := chats[c := chats[c].(messages := chats[c].messages[index := updatedMessage])];
      }
    }

    /** Lines 288-315. */
    method HandleSyncDeleteMessage(sync: Message)
      requires Valid()
      modifies this
      ensures Valid()
      ensures chats == SyncDeleted(old(chats), sync)
      ensures selectedChatId == old(selectedChatId)
      ensures messageText == old(messageText) && editingMessage == old(editingMessage) && isEditingMode == old(isEditingMode)
    {
      SyncDeleteSpec(chats, sync);
      var messageId := ReplaceAll(sync.content, SyncDeletePrefix, "");
      var chat := FindChat(chats, sync.chatId);
      if chat.None? {
        return;
      }
      var c := chat.value;
      var messageToDelete := MessageWithId(chats[c].messages, messageId);
      if messageToDelete.Some? {
        var j := messageToDelete.value;
        chats := chats[c := chats[c].(messages := chats[c].messages[..j] + chats[c].messages[j + 1..])];
      }
    }

    /** Lines 317-345. */
    method HandleSyncClearChatHistory(sync: Message, now: int, noticeId: string)
      requires Valid()
      modifies this
      ensures Valid()
      ensures chats == SyncCleared(old(chats), sync, now, noticeId)
      ensures selectedChatId == old(selectedChatId)
      ensures messageText == old(messageText) && editingMessage == old(editingMessage) && isEditingMode == old(isEditingMode)
    {
      SyncClearSpec(chats, sync, now, noticeId);
      var chat := FindChat(chats, sync.chatId);
      if chat.None? {
        return;
      }
      var c := chat.value;
      chats := chats[c := chats[c].(messages := [ClearNotice(sync, now, noticeId)])];
    }

    /**
     * Lines 354-384: adds the extracted chat at the top unless it is already listed, and
     * selects it when the current user created it.
     */
    method HandleChatCreationMessage(message: Message, now: int, noticeId: string)
      requires Valid()
      modifies this
      ensures Valid()
      ensures chats == ChatCreated(old(chats), message, now, noticeId)
      ensures selectedChatId ==
        if CreatedChatId(old(chats), message.content).Some? && message.sender == currentUser.username
        then CreatedChatId(old(chats), message.content) else old(selectedChatId)
      ensures messageText == old(messageText) && editingMessage == old(editingMessage) && isEditingMode == old(isEditingMode)
    {
      ChatCreatedSpec(chats, message, now, noticeId);
      var chatId := ExtractChatIdFromCreationMessage(message.content);
      if chatId.None? || chatId.value == "" {
        return;
      }
      var existingChat := FindChat(chats, chatId.value);
      if existingChat.Some? {
        return;
      }
      var newChat := ClientChat(chatId.value, CreatedChatName(chatId.value), [WelcomeNotice(now, noticeId)]);
      ghost var oldChats := chats;
      chats := [newChat] + chats;
      if selectedChatId.Some? {
        var i := FindChat(oldChats, selectedChatId.value).value;
        assert chats[i + 1] == oldChats[i];
      }
      if message.sender == currentUser.username {
        selectedChatId := Some(chatId.value);
        assert chats[0] == newChat;
      }
    }

    /**
     * Lines 403-419: the index of the frame's chat, inserting a new chat at the top when
     * none is listed; `None` when naming the new chat throws.
     */
    method FindOrCreateChatForMessage(message: Message) returns (chatIndex: Option<nat>)
      requires Valid()
      modifies this
      ensures Valid()
      ensures chatIndex.Some? ==> chatIndex.value < |chats| && chats[chatIndex.value].chatId == message.chatId
      ensures FindChat(old(chats), message.chatId).Some? ==>
        chats == old(chats) && chatIndex == FindChat(old(chats), message.chatId)
      ensures FindChat(old(chats), message.chatId).None? ==>
        match GetChatDisplayName(message.chatId, message.sender)
        case None => chats == old(chats) && chatIndex == None
        case Some(name) => chats == [ClientChat(message.chatId, name, [])] + old(chats) && chatIndex == Some(0)
      ensures selectedChatId == old(selectedChatId)
      ensures messageText == old(messageText) && editingMessage == old(editingMessage) && isEditingMode == old(isEditingMode)
    {
      var chat := FindChat(chats, message.chatId);
      if chat.Some? {
        return chat;
      }
      var name := GetChatDisplayName(message.chatId, message.sender);
      if name.None? {
        // Substring throws: the frame is dropped
        return None;
      }
      ghost var oldChats := chats;
      chats := [ClientChat(message.chatId, name.value, [])] + chats;
      forall a, b | 0 <= a < b < |chats| ensures chats[a].chatId != chats[b].chatId {
        assert chats[b] == oldChats[b - 1];
        if a > 0 { assert chats[a] == oldChats[a - 1]; }
      }
      if selectedChatId.Some? {
        var i := FindChat(oldChats, selectedChatId.value).value;
        assert chats[i + 1] == oldChats[i];
      }
      return Some(0);
    }

    /** Lines 432-439: the chat with this id moves to index 0; the others keep their order. */
    method MoveChatToTop(chatId: string)
      requires Valid()
      modifies this
      ensures Valid()
      ensures chats == match FindChat(old(chats), chatId) case Some(i) => MoveToFront(old(chats), i) case None => old(chats)
      ensures selectedChatId == old(selectedChatId)
      ensures messageText == old(messageText) && editingMessage == old(editingMessage) && isEditingMode == old(isEditingMode)
    {
      var index := FindChat(chats, chatId);
      if index.Some? && index.value != 0 {
        MoveToFrontSpec(chats, index.value);
        ghost var oldChats := chats;
        chats := MoveToFront(chats, index.value);
        SelectedStaysListed(oldChats, chats, selectedChatId);
      } else if index.Some? {
        MoveToFrontFirst(chats);
      }
    }

    /**
     * Lines 155-234: dispatches a received frame. Synchronisation frames and creation
     * frames go to their handlers; any other frame is reclassified and delivered.
     */
    method ProcessIncomingMessage(message: Message, now: int, noticeId: string)
      requires Valid()
      modifies this
      ensures Valid()
      ensures RouteOf(message) == SyncEdit ==> chats == SyncEdited(old(chats), message)
      ensures RouteOf(message) == SyncDelete ==> chats == SyncDeleted(old(chats), message)
      ensures RouteOf(message) == SyncClear ==> chats == SyncCleared(old(chats), message, now, noticeId)
      ensures RouteOf(message) == Creation ==> chats == ChatCreated(old(chats), message, now, noticeId)
      ensures RouteOf(message) == Deliver ==> chats == Delivered(old(chats), Reclassified(message)).GetOr(old(chats))
      ensures RouteOf(message) != Creation ==> selectedChatId == old(selectedChatId)
      ensures messageText == old(messageText) && editingMessage == old(editingMessage) && isEditingMode == old(isEditingMode)
    {
      if message.msgType == MessageType.System && StartsWith(message.content, SyncEditPrefix) {
        HandleSyncEditMessage(message);
        return;
      }
      if message.msgType == MessageType.System && StartsWith(message.content, SyncDeletePrefix) {
        HandleSyncDeleteMessage(message);
        return;
      }
      if message.msgType == MessageType.System && message.content == SyncClearContent {
        HandleSyncClearChatHistory(message, now, noticeId);
        return;
      }
      var frame := Reclassified(message);
      if frame.msgType == MessageType.System && Contains(frame.content, CreationMarker) {
        HandleChatCreationMessage(frame, now, noticeId);
        return;
      }
      DeliverMessage(frame);
    }

    /**
     * Lines 206-233: appends the frame to its chat (created if need be) unless it is a
     * duplicate, then moves that chat to the top.
     */
    method DeliverMessage(frame: Message)
      requires Valid()
      modifies this
      ensures Valid()
      ensures chats == Delivered(old(chats), frame).GetOr(old(chats))
      ensures selectedChatId == old(selectedChatId)
      ensures messageText == old(messageText) && editingMessage == old(editingMessage) && isEditingMode == old(isEditingMode)
    {
      ghost var before := chats;
      var chatIndex := FindOrCreateChatForMessage(frame);
      if chatIndex.None? {
        return;
      }
      var c := chatIndex.value;
      DeliveredInSteps(before, chats, c, frame);
      AppendedKeepsIds(chats, c, frame);
      if !IsDuplicate(chats[c].messages, frame) {
        chats := chats[c := chats[c].(messages := chats[c].messages + [frame])];
      }
      FindChatDistinct(chats, c);
      MoveChatToTop(frame.chatId);
    }

    /** Lines 450-464: whether the send button is enabled. */
    function CanSendMessage(): (r: bool)
      reads this
      ensures r <==> (Trim(messageText) != [] &&
                      (if isEditingMode then editingMessage.Some? else selectedChatId.Some?))
    {
      WhiteSpaceIffTrimEmpty(messageText);
      if isEditingMode then !IsNullOrWhiteSpace(messageText) && editingMessage.Some?
      else !IsNullOrWhiteSpace(messageText) && selectedChatId.Some?
    }

    /** Lines 529-538: a Text message enters the edit mode with its content in the box. */
    method EditMessage(message: Option<Message>)
      modifies this
      ensures message.Some? && message.value.msgType == Text ==>
        editingMessage == message && messageText == message.value.content && isEditingMode
      ensures !(message.Some? && message.value.msgType == Text) ==>
        editingMessage == old(editingMessage) && messageText == old(messageText) && isEditingMode == old(isEditingMode)
      ensures chats == old(chats) && selectedChatId == old(selectedChatId)
    {
      if message.None? || message.value.msgType != Text {
        return;
      }
      editingMessage := message;
      messageText := message.value.content;
      isEditingMode := true;
    }

    /** Lines 583-588. */
    method CancelEdit()
      modifies this
      ensures editingMessage == None && messageText == "" && !isEditingMode
      ensures chats == old(chats) && selectedChatId == old(selectedChatId)
    {
      editingMessage := None;
      messageText := "";
      isEditingMode := false;
    }

    /**
     * Lines 480-515: a blank edit, or one that does not change the content, cancels the
     * edit mode. Otherwise the message is edited and sent; `delivered` says whether the
     * send completed, and only then is the edit mode left. Returns the message sent.
     */
    method EditCurrentMessage(now: int, delivered: bool) returns (sent: Option<Message>)
      requires editingMessage.Some?
      modifies this
      ensures var newContent := Trim(old(messageText));
        var editing := old(editingMessage).value;
        && (newContent == [] || newContent == editing.content ==>
              sent == None && editingMessage == None && messageText == "" && !isEditingMode)
        && (newContent != [] && newContent != editing.content && delivered ==>
              && sent == Some(EditedMessage(editing, newContent, now))
              && editingMessage == None && messageText == "" && !isEditingMode)
        && (newContent != [] && newContent != editing.content && !delivered ==>
              && sent == None
              && editingMessage == Some(EditedMessage(editing, newContent, now))
              && messageText == old(messageText) && isEditingMode == old(isEditingMode))
      ensures chats == old(chats) && selectedChatId == old(selectedChatId)
    {
      var newContent := Trim(messageText);
      if newContent == [] || newContent == editingMessage.value.content {
        CancelEdit();
        return None;
      }
      var edited := EditedMessage(editingMessage.value, newContent, now);
      editingMessage := Some(edited);
      if !delivered {
        // the send throws; the error is shown and the edit mode stays
        return None;
      }
      messageText := "";
      isEditingMode := false;
      editingMessage := None;
      return Some(edited);
    }
  }

  /** Changing the messages of chats keeps the ids distinct and every lookup by id. */
  lemma SameChatIds(before: seq<ClientChat>, after: seq<ClientChat>)
    requires DistinctChatIds(before)
    requires |after| == |before| && forall k :: 0 <= k < |before| ==> after[k].chatId == before[k].chatId
    ensures DistinctChatIds(after)
    ensures forall chatId :: FindChat(after, chatId) == FindChat(before, chatId)
  {
    forall chatId ensures FindChat(after, chatId) == FindChat(before, chatId) {
      var r := FindChat(before, chatId);
      if r.Some? {
        assert after[r.value].chatId == chatId;
        FindChatDistinct(after, r.value);
      }
    }
  }

  /** Reordering the list keeps a listed chat listed. */
  lemma SelectedStaysListed(before: seq<ClientChat>, after: seq<ClientChat>, selected: Option<string>)
    requires multiset(before) == multiset(after)
    requires selected.Some? ==> FindChat(before, selected.value).Some?
    ensures selected.Some? ==> FindChat(after, selected.value).Some?
  {
    if selected.Some? {
      var i := FindChat(before, selected.value).value;
      assert before[i] in multiset(after);
    }
  }
}
