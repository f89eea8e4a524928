/**
 * MessageService of the server (Messenger_Meowtalk.Server/Services/MessageService.cs):
 * saving, listing, clearing, editing, deleting and migrating messages over the tables
 * of `ChatDb`, with one encrypted copy per participant that holds a key.
 *
 * `ivs(k)` is the IV that `Aes.GenerateIV` draws for the encryption done at step `k`
 * of an operation's loop, `freshId` the value `Guid.NewGuid()` returns, and `now` the
 * value of `DateTime.Now` (the `EncryptedAt` default).
 */
module MessageStore {
  import opened Common
  import opened Encryption
  import opened Models
  import opened Database

  // =================================================================================
  // SaveMessageAsync (lines 19-68)

  /** Line 26: the message's own id, or a fresh Guid when it has none. */
  function SavedId(message: Message, freshId: string): string {
    message.id.GetOr(freshId)
  }

  /** Lines 24-36: the copy written to `Messages`; `IsMyMessage` is not copied. */
  function StoredCopy(message: Message, id: string): Message {
    message.(id := Some(id), isMyMessage := false)
  }

  /** The participants, in list order, for which a key is stored (line 43). */
  function KeyedParticipants(participantIds: seq<string>, keys: map<string, Key>): seq<string> {
    if participantIds == [] then []
    else
      var k := |participantIds| - 1;
      KeyedParticipants(participantIds[..k], keys) + (if participantIds[k] in keys then [participantIds[k]] else [])
  }

  /** The row the loop of lines 41-58 adds for a participant `p` at step `k`. */
  function EncryptedCopy(keys: map<string, Key>, messageId: string, content: string, p: string, iv: Iv, now: int): EncryptedMessage
    requires p in keys
  {
    EncryptedMessage(messageId, p, Seal(keys[p], iv, content), iv, now)
  }

  /** The rows lines 41-58 add, in the order they are added. */
  function EncryptionRows(keys: map<string, Key>, messageId: string, content: string,
                          participantIds: seq<string>, ivs: nat -> Iv, now: int): seq<EncryptedMessage>
  {
    if participantIds == [] then []
    else
      var k := |participantIds| - 1;
      var p := participantIds[k];
      EncryptionRows(keys, messageId, content, participantIds[..k], ivs, now) +
        (if p in keys then [EncryptedCopy(keys, messageId, content, p, ivs(k), now)] else [])
  }

  function RowUsers(rows: seq<EncryptedMessage>): (r: seq<string>)
    ensures |r| == |rows| && forall k :: 0 <= k < |rows| ==> r[k] == rows[k].userId
  {
    seq(|rows|, k requires 0 <= k < |rows| => rows[k].userId)
  }

  /** A participant keeps exactly its own occurrences when it has a key, and none otherwise. */
  lemma {:induction false} KeyedParticipantsCount(participantIds: seq<string>, keys: map<string, Key>, p: string)
    ensures multiset(KeyedParticipants(participantIds, keys))[p] ==
            if p in keys then multiset(participantIds)[p] else 0
  {
    if participantIds != [] {
      var k := |participantIds| - 1;
      KeyedParticipantsCount(participantIds[..k], keys, p);
      assert participantIds == participantIds[..k] + [participantIds[k]];
    }
  }

  /**
   * Save writes one encrypted copy per keyed participant, in participant order, each
   * tagged with the message id and opening to the message text under that user's key.
   */
  lemma {:induction false} EncryptionRowsSpec(keys: map<string, Key>, messageId: string, content: string,
                                              participantIds: seq<string>, ivs: nat -> Iv, now: int)
    ensures var rows := EncryptionRows(keys, messageId, content, participantIds, ivs, now);
      && RowUsers(rows) == KeyedParticipants(participantIds, keys)
      && forall k :: 0 <= k < |rows| ==>
           && rows[k].messageId == messageId
           && rows[k].userId in keys
           && Unseal(keys[rows[k].userId], rows[k].iv, rows[k].encryptedContent) == Some(WithoutByteOrderMark(content))
  {
    if participantIds != [] {
      var k := |participantIds| - 1;
      var p := participantIds[k];
      EncryptionRowsSpec(keys, messageId, content, participantIds[..k], ivs, now);
      if p in keys {
        SealRoundTrip(keys[p], ivs(k), content);
      }
      var prev := EncryptionRows(keys, messageId, content, participantIds[..k], ivs, now);
      var rows := EncryptionRows(keys, messageId, content, participantIds, ivs, now);
      assert RowUsers(rows) == RowUsers(prev) + (if p in keys then [p] else []);
    }
  }

  // =================================================================================
  // GetUserMessagesAsync (lines 70-109)

  /** `Messages.Where(m => m.ChatId == chatId)`, in table order. */
  function ChatMessages(messages: seq<Message>, chatId: string): (r: seq<Message>)
    ensures forall m :: m in r <==> m in messages && m.chatId == chatId
    ensures |r| <= |messages|
  {
    if messages == [] then []
    else (if messages[0].chatId == chatId then [messages[0]] else []) + ChatMessages(messages[1..], chatId)
  }

  predicate SortedByTimestamp(s: seq<Message>) {
    forall i, j :: 0 <= i < j < |s| ==> s[i].timestamp <= s[j].timestamp
  }

  /** Places `m` after every element whose timestamp is not later than its own. */
  function InsertByTimestamp(m: Message, s: seq<Message>): (r: seq<Message>)
    ensures forall x :: x in r <==> x == m || x in s
  {
    if s == [] || m.timestamp < s[0].timestamp then [m] + s
    else [s[0]] + InsertByTimestamp(m, s[1..])
  }

  /** `OrderBy(m => m.Timestamp)`, stable. */
  function SortByTimestamp(s: seq<Message>): seq<Message> {
    if s == [] then []
    else InsertByTimestamp(s[|s| - 1], SortByTimestamp(s[..|s| - 1]))
  }

  lemma {:induction false} InsertByTimestampCount(m: Message, s: seq<Message>)
    ensures multiset(InsertByTimestamp(m, s)) == multiset(s) + multiset{m}
  {
    if s != [] && m.timestamp >= s[0].timestamp {
      InsertByTimestampCount(m, s[1..]);
      assert s == [s[0]] + s[1..];
    }
  }

  lemma {:induction false} InsertByTimestampSorted(m: Message, s: seq<Message>)
    requires SortedByTimestamp(s)
    ensures SortedByTimestamp(InsertByTimestamp(m, s))
  {
    if s != [] && m.timestamp >= s[0].timestamp {
      InsertByTimestampSorted(m, s[1..]);
      var r := InsertByTimestamp(m, s[1..]);
      var t := [s[0]] + r;
      assert t == InsertByTimestamp(m, s);
      forall i, j | 0 <= i < j < |t| ensures t[i].timestamp <= t[j].timestamp {
        if i == 0 {
          var x := t[j];
          assert x == r[j - 1];
          assert x in r;
          if x != m {
            var k :| 0 <= k < |s[1..]| && s[1..][k] == x;
            assert s[k + 1] == x;
          }
        } else {
          assert t[i] == r[i - 1] && t[j] == r[j - 1];
        }
      }
    }
  }

  /** The order `GetUserMessagesAsync` returns: sorted by timestamp and a permutation. */
  lemma {:induction false} SortByTimestampSpec(s: seq<Message>)
    ensures SortedByTimestamp(SortByTimestamp(s))
    ensures multiset(SortByTimestamp(s)) == multiset(s)
  {
    if s != [] {
      var n := |s| - 1;
      SortByTimestampSpec(s[..n]);
      InsertByTimestampSorted(s[n], SortByTimestamp(s[..n]));
      InsertByTimestampCount(s[n], SortByTimestamp(s[..n]));
      assert s == s[..n] + [s[n]];
    }
  }

  /** Lines 84-96: the copy returned to the caller; `OriginalContent` is not copied. */
  function HistoryEntry(m: Message, userId: string): Message {
    Message(m.id, m.sender, m.content, m.chatId, m.timestamp, m.msgType, m.isEdited,
            m.editedTimestamp, "", m.mediaType, m.sender == userId)
  }

  function HistoryEntries(s: seq<Message>, userId: string): (r: seq<Message>)
    ensures |r| == |s| && forall i :: 0 <= i < |s| ==> r[i] == HistoryEntry(s[i], userId)
  {
    seq(|s|, i requires 0 <= i < |s| => HistoryEntry(s[i], userId))
  }

  lemma HistoryEntriesCons(x: Message, s: seq<Message>, userId: string)
    ensures HistoryEntries([x] + s, userId) == [HistoryEntry(x, userId)] + HistoryEntries(s, userId)
  {
    var l := HistoryEntries([x] + s, userId);
    var r := [HistoryEntry(x, userId)] + HistoryEntries(s, userId);
    assert |l| == |r|;
    forall i | 0 <= i < |l| ensures l[i] == r[i] {
      if i > 0 { assert ([x] + s)[i] == s[i - 1]; }
    }
  }

  lemma {:induction false} HistoryEntriesInsert(m: Message, s: seq<Message>, userId: string)
    ensures HistoryEntries(InsertByTimestamp(m, s), userId) ==
            InsertByTimestamp(HistoryEntry(m, userId), HistoryEntries(s, userId))
  {
    var hs := HistoryEntries(s, userId);
    if s != [] && m.timestamp >= s[0].timestamp {
      HistoryEntriesInsert(m, s[1..], userId);
      HistoryEntriesCons(s[0], InsertByTimestamp(m, s[1..]), userId);
      HistoryEntriesCons(s[0], s[1..], userId);
      assert [s[0]] + s[1..] == s;
      assert hs[1..] == HistoryEntries(s[1..], userId);
    } else {
      HistoryEntriesCons(m, s, userId);
    }
  }

  /** Building the returned copies commutes with the ordering. */
  lemma {:induction false} HistoryEntriesSort(s: seq<Message>, userId: string)
    ensures HistoryEntries(SortByTimestamp(s), userId) == SortByTimestamp(HistoryEntries(s, userId))
  {
    if s != [] {
      var n := |s| - 1;
      HistoryEntriesSort(s[..n], userId);
      HistoryEntriesInsert(s[n], SortByTimestamp(s[..n]), userId);
      assert HistoryEntries(s, userId)[..n] == HistoryEntries(s[..n], userId);
    }
  }

  /**
   * Lines 75-98: what `GetUserMessagesAsync` returns is ordered by timestamp, is a
   * permutation of the chat's messages as copied for the user, and marks exactly the
   * user's own messages.
   */
  lemma HistoryResultSpec(messages: seq<Message>, chatId: string, userId: string)
    ensures var r := HistoryEntries(SortByTimestamp(ChatMessages(messages, chatId)), userId);
      && SortedByTimestamp(r)
      && multiset(r) == multiset(HistoryEntries(ChatMessages(messages, chatId), userId))
      && forall i :: 0 <= i < |r| ==> r[i].chatId == chatId && r[i].isMyMessage == (r[i].sender == userId)
  {
    var chat := ChatMessages(messages, chatId);
    var sorted := SortByTimestamp(chat);
    SortByTimestampSpec(chat);
    SortByTimestampSpec(HistoryEntries(chat, userId));
    HistoryEntriesSort(chat, userId);
    forall i | 0 <= i < |sorted| ensures sorted[i].chatId == chatId {
      assert sorted[i] in multiset(chat);
    }
  }

  // =================================================================================
  // ClearChatHistoryAsync (lines 110-146)

  /** Lines 118 and 131: the messages a clear of `chatId` removes. */
  predicate ClearedBy(m: Message, chatId: string) {
    m.chatId == chatId && m.msgType != MessageType.System
  }

  function KeptMessages(messages: seq<Message>, chatId: string): (r: seq<Message>)
    ensures forall m :: m in r <==> m in messages && !ClearedBy(m, chatId)
  {
    if messages == [] then []
    else (if ClearedBy(messages[0], chatId) then [] else [messages[0]]) + KeptMessages(messages[1..], chatId)
  }

  /** Line 117-120: the ids of the removed messages. */
  function ClearedIds(messages: seq<Message>, chatId: string): set<string> {
    set m | m in messages && ClearedBy(m, chatId) && m.id.Some? :: m.id.value
  }

  /** The encrypted rows that survive removing the messages with the given ids. */
  function KeptRows(rows: seq<EncryptedMessage>, removed: set<string>): (r: seq<EncryptedMessage>)
    ensures forall x :: x in r <==> x in rows && x.messageId !in removed
  {
    if rows == [] then []
    else (if rows[0].messageId in removed then [] else [rows[0]]) + KeptRows(rows[1..], removed)
  }

  lemma {:induction false} KeptMessagesKeys(messages: seq<Message>, chatId: string)
    requires MessageKeys(messages)
    ensures MessageKeys(KeptMessages(messages, chatId))
  {
    if messages != [] {
      KeptMessagesKeys(messages[1..], chatId);
      var rest := KeptMessages(messages[1..], chatId);
      forall x | x in rest ensures x.id != messages[0].id {
        var j :| 0 <= j < |messages[1..]| && messages[1..][j] == x;
        assert messages[j + 1] == x;
      }
    }
  }

  /**
   * A clear removes exactly the non-System messages of the chat: System messages of the
   * chat stay, and the message list of every other chat is unchanged, in order.
   */
  lemma {:induction false} ClearKeepsOtherChats(messages: seq<Message>, chatId: string, other: string)
    requires other != chatId
    ensures ChatMessages(KeptMessages(messages, chatId), other) == ChatMessages(messages, other)
    ensures forall m :: m in ChatMessages(KeptMessages(messages, chatId), chatId) <==>
                          m in ChatMessages(messages, chatId) && m.msgType == MessageType.System
  {
    if messages != [] {
      ClearKeepsOtherChats(messages[1..], chatId, other);
      var m := messages[0];
      var rest := KeptMessages(messages[1..], chatId);
      if !ClearedBy(m, chatId) {
        var kept := [m] + rest;
        assert KeptMessages(messages, chatId) == kept;
        assert kept[0] == m && kept[1..] == rest;
        assert ChatMessages(kept, other) ==
               (if m.chatId == other then [m] else []) + ChatMessages(rest, other);
      } else {
        assert KeptMessages(messages, chatId) == rest;
      }
    }
  }

  /** After a clear, no encrypted row of the database points at a removed message. */
  lemma ClearKeepsReferences(rows: seq<EncryptedMessage>, messages: seq<Message>, chatId: string)
    requires RowsReferToMessages(rows, messages)
    ensures RowsReferToMessages(KeptRows(rows, ClearedIds(messages, chatId)), KeptMessages(messages, chatId))
  {
    var kept := KeptRows(rows, ClearedIds(messages, chatId));
    var keptMessages := KeptMessages(messages, chatId);
    forall k | 0 <= k < |kept| ensures HasMessage(keptMessages, kept[k].messageId) {
      assert kept[k] in rows;
      var j :| 0 <= j < |rows| && rows[j] == kept[k];
      var i :| 0 <= i < |messages| && messages[i].id == Some(rows[j].messageId);
      assert messages[i] in keptMessages;
      var i' :| 0 <= i' < |keptMessages| && keptMessages[i'] == messages[i];
    }
  }

  // =================================================================================
  // UpdateMessageAsync (lines 147-221)

  /** Lines 155-158: same sender, same chat, timestamps less than one minute apart. */
  predicate FallbackMatch(m: Message, query: Message) {
    && m.sender == query.sender
    && m.chatId == query.chatId
    && -TicksPerMinute < m.timestamp - query.timestamp < TicksPerMinute
  }

  /** Lines 152-158: the first message with the query's id, else the first fallback match. */
  function FindUpdateTarget(messages: seq<Message>, query: Message): (r: Option<nat>)
    ensures r.Some? ==> r.value < |messages|
    ensures r.None? <==>
      (forall i :: 0 <= i < |messages| ==> messages[i].id != query.id && !FallbackMatch(messages[i], query))
    ensures (exists i :: 0 <= i < |messages| && messages[i].id == query.id) ==>
      && r.Some? && messages[r.value].id == query.id
      && forall j :: 0 <= j < r.value ==> messages[j].id != query.id
    ensures (forall i :: 0 <= i < |messages| ==> messages[i].id != query.id) && r.Some? ==>
      && FallbackMatch(messages[r.value], query)
      && forall j :: 0 <= j < r.value ==> !FallbackMatch(messages[j], query)
  {
    match FirstIndex(messages, (m: Message) => m.id == query.id)
    case Some(i) => Some(i)
    case None => FirstIndex(messages, (m: Message) => FallbackMatch(m, query))
  }

  /** Lines 169-171: only content, edited flag and edit time change. */
  function Edited(m: Message, query: Message): Message {
    m.(content := query.content, isEdited := query.isEdited, editedTimestamp := query.editedTimestamp)
  }

  predicate RowOf(row: EncryptedMessage, messageId: string, userId: string) {
    row.messageId == messageId && row.userId == userId
  }

  /** Line 182-183: the first row of (message, participant), searched in the given rows. */
  function FirstRow(rows: seq<EncryptedMessage>, messageId: string, userId: string): (r: Option<nat>)
    ensures r.Some? ==> r.value < |rows| && RowOf(rows[r.value], messageId, userId)
    ensures r.Some? ==> forall j :: 0 <= j < r.value ==> !RowOf(rows[j], messageId, userId)
    ensures r.None? ==> forall j :: 0 <= j < |rows| ==> !RowOf(rows[j], messageId, userId)
  {
    FirstIndex(rows, (row: EncryptedMessage) => RowOf(row, messageId, userId))
  }

  /**
   * Lines 174-210, in loop order. The lookup of an existing row only sees `saved`, the
   * rows stored before the call: rows added by earlier iterations are not yet saved.
   */
  function ReencryptRows(saved: seq<EncryptedMessage>, messageId: string, content: string,
                         keys: map<string, Key>, participantIds: seq<string>, ivs: nat -> Iv, now: int)
    : (r: seq<EncryptedMessage>)
    ensures |saved| <= |r|
    ensures forall j :: 0 <= j < |saved| ==> RowOf(r[j], saved[j].messageId, saved[j].userId)
  {
    if participantIds == [] then saved
    else
      var k := |participantIds| - 1;
      var p := participantIds[k];
      var prev := ReencryptRows(saved, messageId, content, keys, participantIds[..k], ivs, now);
      if p !in keys then prev
      else
        match FirstRow(saved, messageId, p)
        case Some(j) =>
          prev[j := prev[j].(encryptedContent := Seal(keys[p], ivs(k), content), iv := ivs(k))]
        case None =>
          prev + [EncryptedCopy(keys, messageId, content, p, ivs(k), now)]
  }

  /**
   * The copy of `row` opens to `content` under the key stored for its user (less a
   * leading U+FEFF, which the decrypting reader drops).
   */
  predicate OpensTo(row: EncryptedMessage, keys: map<string, Key>, content: string) {
    row.userId in keys && Unseal(keys[row.userId], row.iv, row.encryptedContent) == Some(WithoutByteOrderMark(content))
  }

  lemma FirstRowSame(a: seq<EncryptedMessage>, b: seq<EncryptedMessage>, messageId: string, userId: string)
    requires |a| == |b|
    requires forall i :: 0 <= i < |a| ==> (RowOf(a[i], messageId, userId) <==> RowOf(b[i], messageId, userId))
    ensures FirstRow(a, messageId, userId) == FirstRow(b, messageId, userId)
  {
  }

  lemma FirstRowAppend(a: seq<EncryptedMessage>, x: EncryptedMessage, messageId: string, userId: string)
    ensures FirstRow(a + [x], messageId, userId) ==
      if FirstRow(a, messageId, userId).Some? then FirstRow(a, messageId, userId)
      else if RowOf(x, messageId, userId) then Some(|a|)
      else None
  {
    forall i | 0 <= i < |a| ensures (a + [x])[i] == a[i] {
    }
    assert (a + [x])[|a|] == x;
  }

  /** A row an update adds: a copy of the message for a listed participant with a key. */
  predicate AddedRow(row: EncryptedMessage, messageId: string, participantIds: seq<string>, keys: map<string, Key>) {
    row.messageId == messageId && row.userId in participantIds && row.userId in keys
  }

  /**
   * An update leaves the rows of other messages as they were, and every row it adds
   * belongs to the message and to a listed participant that has a key.
   */
  lemma {:induction false} ReencryptRowsFrame(saved: seq<EncryptedMessage>, messageId: string, content: string,
                                              keys: map<string, Key>, participantIds: seq<string>,
                                              ivs: nat -> Iv, now: int)
    ensures forall j :: 0 <= j < |saved| && saved[j].messageId != messageId ==>
      ReencryptRows(saved, messageId, content, keys, participantIds, ivs, now)[j] == saved[j]
    ensures forall j :: |saved| <= j < |ReencryptRows(saved, messageId, content, keys, participantIds, ivs, now)| ==>
      AddedRow(ReencryptRows(saved, messageId, content, keys, participantIds, ivs, now)[j], messageId, participantIds, keys)
  {
    if participantIds != [] {
      var k := |participantIds| - 1;
      var ps := participantIds[..k];
      var p := participantIds[k];
      var prev := ReencryptRows(saved, messageId, content, keys, ps, ivs, now);
      ReencryptRowsFrame(saved, messageId, content, keys, ps, ivs, now);
      assert forall x :: x in ps ==> x in participantIds;
      if p in keys {
        match FirstRow(saved, messageId, p)
        case Some(j) =>
          var r := prev[j := prev[j].(encryptedContent := Seal(keys[p], ivs(k), content), iv := ivs(k))];
          assert ReencryptRows(saved, messageId, content, keys, participantIds, ivs, now) == r;
          forall i | |saved| <= i < |r| ensures AddedRow(r[i], messageId, participantIds, keys) {
            assert r[i] == prev[i];
          }
        case None =>
          var r := prev + [EncryptedCopy(keys, messageId, content, p, ivs(k), now)];
          assert ReencryptRows(saved, messageId, content, keys, participantIds, ivs, now) == r;
          forall i | |saved| <= i < |r| ensures AddedRow(r[i], messageId, participantIds, keys) {
            if i < |prev| { assert r[i] == prev[i]; }
          }
      } else {
        assert ReencryptRows(saved, messageId, content, keys, participantIds, ivs, now) == prev;
        forall i | |saved| <= i < |prev| ensures AddedRow(prev[i], messageId, participantIds, keys) {
          assert AddedRow(prev[i], messageId, ps, keys);
        }
      }
    }
  }

  /**
   * After an update, for each listed participant with a key, the first copy of the
   * message for that participant opens to the new text under the participant's key.
   */
  lemma {:induction false} ReencryptRowsOpen(saved: seq<EncryptedMessage>, messageId: string, content: string,
                                             keys: map<string, Key>, participantIds: seq<string>,
                                             ivs: nat -> Iv, now: int, q: string)
    requires q in participantIds && q in keys
    ensures var r := ReencryptRows(saved, messageId, content, keys, participantIds, ivs, now);
      var f := FirstRow(r, messageId, q);
      f.Some? && OpensTo(r[f.value], keys, content)
  {
    var r := ReencryptRows(saved, messageId, content, keys, participantIds, ivs, now);
    var k := |participantIds| - 1;
    var p := participantIds[k];
    var ps := participantIds[..k];
    var prev := ReencryptRows(saved, messageId, content, keys, ps, ivs, now);
    assert q == p || q in ps by {
      assert participantIds == ps + [p];
    }
    if p !in keys {
      ReencryptRowsOpen(saved, messageId, content, keys, ps, ivs, now, q);
      return;
    }
    SealRoundTrip(keys[p], ivs(k), content);
    match FirstRow(saved, messageId, p)
    case Some(j) =>
      assert r == prev[j := prev[j].(encryptedContent := Seal(keys[p], ivs(k), content), iv := ivs(k))];
      assert RowOf(prev[j], messageId, p);
      if q == p {
        forall i | 0 <= i < j ensures !RowOf(r[i], messageId, p) {
          assert RowOf(prev[i], saved[i].messageId, saved[i].userId);
        }
        assert FirstRow(r, messageId, p) == Some(j);
      } else {
        ReencryptRowsOpen(saved, messageId, content, keys, ps, ivs, now, q);
        FirstRowSame(r, prev, messageId, q);
      }
    case None =>
      var x := EncryptedCopy(keys, messageId, content, p, ivs(k), now);
      assert r == prev + [x];
      FirstRowAppend(prev, x, messageId, q);
      if q in ps {
        ReencryptRowsOpen(saved, messageId, content, keys, ps, ivs, now, q);
        assert r[FirstRow(prev, messageId, q).value] == prev[FirstRow(prev, messageId, q).value];
      } else {
        ReencryptRowsFrame(saved, messageId, content, keys, ps, ivs, now);
        forall i | 0 <= i < |prev| ensures !RowOf(prev[i], messageId, p) {
          if i < |saved| {
            assert RowOf(prev[i], saved[i].messageId, saved[i].userId);
          }
        }
        assert r[|prev|] == x;
      }
  }

  // =================================================================================
  // MigrateExistingMessagesToEncrypted (lines 251-303)

  predicate HasRows(rows: seq<EncryptedMessage>, m: Message) {
    exists k :: 0 <= k < |rows| && Some(rows[k].messageId) == m.id
  }

  /** Lines 256-258: the messages without any encrypted copy, in table order. */
  function MessagesWithoutRows(messages: seq<Message>, rows: seq<EncryptedMessage>): (r: seq<Message>)
    ensures forall m :: m in r <==> m in messages && !HasRows(rows, m)
  {
    if messages == [] then []
    else (if HasRows(rows, messages[0]) then [] else [messages[0]]) + MessagesWithoutRows(messages[1..], rows)
  }

  /** Lines 265-268: the user ids of the chat's membership rows, in table order. */
  function ChatMembers(userChats: seq<UserChat>, chatId: string): (r: seq<string>)
    ensures forall u :: u in r <==> IsMember(userChats, u, chatId)
  {
    if userChats == [] then []
    else
      var rest := ChatMembers(userChats[1..], chatId);
      assert forall u :: IsMember(userChats, u, chatId) <==>
        (userChats[0].userId == u && userChats[0].chatId == chatId) || IsMember(userChats[1..], u, chatId) by {
        forall u | IsMember(userChats, u, chatId) && !(userChats[0].userId == u && userChats[0].chatId == chatId)
          ensures IsMember(userChats[1..], u, chatId)
        {
          var i :| 0 <= i < |userChats| && userChats[i].userId == u && userChats[i].chatId == chatId;
          assert userChats[1..][i - 1] == userChats[i];
        }
        forall u | IsMember(userChats[1..], u, chatId) ensures IsMember(userChats, u, chatId) {
          var i :| 0 <= i < |userChats[1..]| && userChats[1..][i].userId == u && userChats[1..][i].chatId == chatId;
          assert userChats[i + 1] == userChats[1..][i];
        }
      }
      (if userChats[0].chatId == chatId then [userChats[0].userId] else []) + rest
  }

  /** Line 277: the password a missing key is derived from. */
  function DefaultPassword(userId: string): string {
    userId + "_default_password"
  }

  /** The key cache and the rows while the migration runs. */
  datatype Migration = Migration(keys: map<string, Key>, rows: seq<EncryptedMessage>)

  /** Lines 275-290 for one participant: derive a missing key, then add one copy. */
  function MigrateFor(st: Migration, m: Message, p: string, iv: Iv, now: int): Migration {
    var keys := if p in st.keys then st.keys else st.keys[p := DeriveUserKey(DefaultPassword(p), p)];
    Migration(keys, st.rows + [EncryptedCopy(keys, m.id.GetOr(""), m.content, p, iv, now)])
  }

  /** Lines 273-291 for one message; the IV of each copy is indexed by the row count. */
  function MigrateMembers(st: Migration, m: Message, members: seq<string>, ivs: nat -> Iv, now: int): Migration {
    if members == [] then st
    else
      var prev := MigrateMembers(st, m, members[..|members| - 1], ivs, now);
      MigrateFor(prev, m, members[|members| - 1], ivs(|prev.rows|), now)
  }

  /** Lines 262-294: every message in order; a chat without members adds nothing (line 270). */
  function MigrateMessages(st: Migration, pending: seq<Message>, userChats: seq<UserChat>, ivs: nat -> Iv, now: int): Migration {
    if pending == [] then st
    else
      var prev := MigrateMessages(st, pending[..|pending| - 1], userChats, ivs, now);
      var m := pending[|pending| - 1];
      MigrateMembers(prev, m, ChatMembers(userChats, m.chatId), ivs, now)
  }

  /** What a migration step keeps: the keys and rows that existed stay as they were. */
  predicate MigrationGrows(before: Migration, after: Migration) {
    && (forall u :: u in before.keys ==> u in after.keys && after.keys[u] == before.keys[u])
    && |before.rows| <= |after.rows|
    && after.rows[..|before.rows|] == before.rows
  }

  /** `row` is the copy of `m` for `p`, and it opens to the text of `m`. */
  predicate MigratedRow(row: EncryptedMessage, m: Message, p: string, keys: map<string, Key>) {
    row.messageId == m.id.GetOr("") && row.userId == p && OpensTo(row, keys, m.content)
  }

  /** `row` is a copy of a pending message for a member of that message's chat. */
  predicate FromPending(row: EncryptedMessage, pending: seq<Message>, userChats: seq<UserChat>, keys: map<string, Key>) {
    exists m :: m in pending && MigratedRow(row, m, row.userId, keys) && IsMember(userChats, row.userId, m.chatId)
  }

  /** Keys added during a migration are derived from the default password. */
  predicate DefaultKeysOnly(before: map<string, Key>, after: map<string, Key>) {
    forall u :: u in after && u !in before ==> after[u] == DeriveUserKey(DefaultPassword(u), u)
  }

  lemma MigrationGrowsTrans(a: Migration, b: Migration, c: Migration)
    requires MigrationGrows(a, b) && MigrationGrows(b, c)
    ensures MigrationGrows(a, c)
  {
    assert c.rows[..|a.rows|] == c.rows[..|b.rows|][..|a.rows|];
  }

  lemma MigrateForSpec(st: Migration, m: Message, p: string, iv: Iv, now: int)
    ensures var after := MigrateFor(st, m, p, iv, now);
      && MigrationGrows(st, after)
      && |after.rows| == |st.rows| + 1
      && MigratedRow(after.rows[|st.rows|], m, p, after.keys)
      && p in after.keys
      && DefaultKeysOnly(st.keys, after.keys)
      && (forall u :: u in after.keys ==> u in st.keys || u == p)
  {
    var after := MigrateFor(st, m, p, iv, now);
    SealRoundTrip(after.keys[p], iv, m.content);
    assert after.rows[..|st.rows|] == st.rows;
  }

  /** A copy that opens under some keys still opens once keys are only added. */
  lemma OpensToGrows(row: EncryptedMessage, before: Migration, after: Migration, content: string)
    requires MigrationGrows(before, after) && OpensTo(row, before.keys, content)
    ensures OpensTo(row, after.keys, content)
  {
  }

  /** One step of `MigrateMembersSpec`: the copies made earlier still open after one more copy. */
  lemma MembersRowsStep(st: Migration, prev: Migration, after: Migration, m: Message, earlier: seq<string>,
                        members: seq<string>)
    requires members != [] && earlier == members[..|members| - 1]
    requires |prev.rows| == |st.rows| + |earlier| && MigrationGrows(prev, after) && |after.rows| == |prev.rows| + 1
    requires forall j :: 0 <= j < |earlier| ==> MigratedRow(prev.rows[|st.rows| + j], m, earlier[j], prev.keys)
    requires MigratedRow(after.rows[|prev.rows|], m, members[|members| - 1], after.keys)
    ensures forall j :: 0 <= j < |members| ==> MigratedRow(after.rows[|st.rows| + j], m, members[j], after.keys)
  {
    var n := |members| - 1;
    forall j | 0 <= j < |members| ensures MigratedRow(after.rows[|st.rows| + j], m, members[j], after.keys) {
      if j < n {
        assert after.rows[|st.rows| + j] == prev.rows[|st.rows| + j] by {
          assert after.rows[..|prev.rows|] == prev.rows;
        }
        assert members[j] == earlier[j];
        OpensToGrows(prev.rows[|st.rows| + j], prev, after, m.content);
      }
    }
  }

  lemma {:induction false} MigrateMembersSpec(st: Migration, m: Message, members: seq<string>, ivs: nat -> Iv, now: int)
    ensures var after := MigrateMembers(st, m, members, ivs, now);
      && MigrationGrows(st, after)
      && |after.rows| == |st.rows| + |members|
      && (forall j :: 0 <= j < |members| ==> MigratedRow(after.rows[|st.rows| + j], m, members[j], after.keys))
      && (forall p :: p in members ==> p in after.keys)
      && DefaultKeysOnly(st.keys, after.keys)
  {
    if members != [] {
      var n := |members| - 1;
      var p := members[n];
      var prev := MigrateMembers(st, m, members[..n], ivs, now);
      var after := MigrateMembers(st, m, members, ivs, now);
      MigrateMembersSpec(st, m, members[..n], ivs, now);
      MigrateForSpec(prev, m, p, ivs(|prev.rows|), now);
      assert after == MigrateFor(prev, m, p, ivs(|prev.rows|), now);
      MigrationGrowsTrans(st, prev, after);
      MembersRowsStep(st, prev, after, m, members[..n], members);
      forall q | q in members ensures q in after.keys {
        if q != p { assert q in members[..n]; }
      }
    }
  }

  /** A migration keeps the keys and rows that existed and adds only default-password keys. */
  lemma {:induction false} MigrateMessagesGrows(st: Migration, pending: seq<Message>, userChats: seq<UserChat>,
                                                ivs: nat -> Iv, now: int)
    ensures var after := MigrateMessages(st, pending, userChats, ivs, now);
      MigrationGrows(st, after) && DefaultKeysOnly(st.keys, after.keys)
  {
    if pending != [] {
      var n := |pending| - 1;
      var m := pending[n];
      var prev := MigrateMessages(st, pending[..n], userChats, ivs, now);
      var after := MigrateMessages(st, pending, userChats, ivs, now);
      MigrateMessagesGrows(st, pending[..n], userChats, ivs, now);
      MigrateMembersSpec(prev, m, ChatMembers(userChats, m.chatId), ivs, now);
      MigrationGrowsTrans(st, prev, after);
    }
  }

  /** Every row from index `first` on is a copy of a pending message for a member of its chat. */
  ghost predicate RowsFromPending(first: nat, st: Migration, pending: seq<Message>, userChats: seq<UserChat>) {
    forall k :: first <= k < |st.rows| ==> FromPending(st.rows[k], pending, userChats, st.keys)
  }

  /** Every member of a pending message's chat has a key. */
  ghost predicate KeysCover(keys: map<string, Key>, pending: seq<Message>, userChats: seq<UserChat>) {
    forall m, u :: m in pending && IsMember(userChats, u, m.chatId) ==> u in keys
  }

  /** One step of `MigrateMessagesRows`, over any states that grow as `MigrateMembersSpec` says. */
  lemma RowsStep(first: nat, prev: Migration, after: Migration, earlier: seq<Message>, m: Message,
                 members: seq<string>, userChats: seq<UserChat>)
    requires RowsFromPending(first, prev, earlier, userChats)
    requires MigrationGrows(prev, after) && |after.rows| == |prev.rows| + |members|
    requires forall j :: 0 <= j < |members| ==> MigratedRow(after.rows[|prev.rows| + j], m, members[j], after.keys)
    requires forall u :: u in members ==> IsMember(userChats, u, m.chatId)
    ensures RowsFromPending(first, after, earlier + [m], userChats)
  {
    forall k | first <= k < |after.rows| ensures FromPending(after.rows[k], earlier + [m], userChats, after.keys) {
      if k < |prev.rows| {
        GrowsKeepsRow(prev, after, k);
        FromPendingKept(prev.rows[k], earlier, earlier + [m], userChats, prev, after);
      } else {
        var j := k - |prev.rows|;
        assert MigratedRow(after.rows[|prev.rows| + j], m, members[j], after.keys);
        assert members[j] in members;
        assert m in earlier + [m];
      }
    }
  }

  /** Migrating one more message keeps `RowsFromPending` for the longer pending list. */
  lemma RowsStepMessage(first: nat, prev: Migration, earlier: seq<Message>, m: Message, userChats: seq<UserChat>,
                        ivs: nat -> Iv, now: int)
    requires RowsFromPending(first, prev, earlier, userChats)
    ensures RowsFromPending(first, MigrateMembers(prev, m, ChatMembers(userChats, m.chatId), ivs, now), earlier + [m], userChats)
  {
    var members := ChatMembers(userChats, m.chatId);
    MigrateMembersSpec(prev, m, members, ivs, now);
    RowsStep(first, prev, MigrateMembers(prev, m, members, ivs, now), earlier, m, members, userChats);
  }

  /** Every row a migration adds is a copy of a pending message for a member of its chat. */
  lemma {:induction false} MigrateMessagesRows(st: Migration, pending: seq<Message>, userChats: seq<UserChat>,
                                               ivs: nat -> Iv, now: int)
    ensures RowsFromPending(|st.rows|, MigrateMessages(st, pending, userChats, ivs, now), pending, userChats)
  {
    if pending != [] {
      var n := |pending| - 1;
      var m := pending[n];
      var prev := MigrateMessages(st, pending[..n], userChats, ivs, now);
      MigrateMessagesRows(st, pending[..n], userChats, ivs, now);
      RowsStepMessage(|st.rows|, prev, pending[..n], m, userChats, ivs, now);
      assert pending == pending[..n] + [m];
      assert MigrateMessages(st, pending, userChats, ivs, now)
          == MigrateMembers(prev, m, ChatMembers(userChats, m.chatId), ivs, now);
    }
  }

  /** One step of `MigrateMessagesKeys`. */
  lemma KeysStep(prevKeys: map<string, Key>, afterKeys: map<string, Key>, earlier: seq<Message>, m: Message,
                 members: seq<string>, userChats: seq<UserChat>)
    requires KeysCover(prevKeys, earlier, userChats)
    requires forall u :: u in prevKeys ==> u in afterKeys
    requires forall u :: IsMember(userChats, u, m.chatId) ==> u in members
    requires forall p :: p in members ==> p in afterKeys
    ensures KeysCover(afterKeys, earlier + [m], userChats)
  {
    forall m', u | m' in earlier + [m] && IsMember(userChats, u, m'.chatId) ensures u in afterKeys {
      if m' != m { assert m' in earlier; }
    }
  }

  /** Migrating one more message keeps `KeysCover` for the longer pending list. */
  lemma KeysStepMessage(prev: Migration, earlier: seq<Message>, m: Message, userChats: seq<UserChat>,
                        ivs: nat -> Iv, now: int)
    requires KeysCover(prev.keys, earlier, userChats)
    ensures KeysCover(MigrateMembers(prev, m, ChatMembers(userChats, m.chatId), ivs, now).keys, earlier + [m], userChats)
  {
    var members := ChatMembers(userChats, m.chatId);
    MigrateMembersSpec(prev, m, members, ivs, now);
    KeysStep(prev.keys, MigrateMembers(prev, m, members, ivs, now).keys, earlier, m, members, userChats);
  }

  /** After a migration every member of a pending message's chat has a key. */
  lemma {:induction false} MigrateMessagesKeys(st: Migration, pending: seq<Message>, userChats: seq<UserChat>,
                                               ivs: nat -> Iv, now: int)
    ensures KeysCover(MigrateMessages(st, pending, userChats, ivs, now).keys, pending, userChats)
  {
    if pending != [] {
      var n := |pending| - 1;
      var m := pending[n];
      var prev := MigrateMessages(st, pending[..n], userChats, ivs, now);
      MigrateMessagesKeys(st, pending[..n], userChats, ivs, now);
      KeysStepMessage(prev, pending[..n], m, userChats, ivs, now);
      assert pending == pending[..n] + [m];
    }
  }

  /** The number of copies migrating `pending` adds: one per membership row of each message's chat. */
  function MigratedCount(pending: seq<Message>, userChats: seq<UserChat>): nat {
    if pending == [] then 0
    else MigratedCount(pending[..|pending| - 1], userChats) + |ChatMembers(userChats, pending[|pending| - 1].chatId)|
  }

  /**
   * The copy of the `i`-th pending message for the `j`-th member of its chat stands at
   * index `first` plus the copies of the messages before it plus `j`, and opens under the
   * keys.
   */
  ghost predicate CopyAt(first: nat, st: Migration, pending: seq<Message>, userChats: seq<UserChat>, i: nat, j: nat) {
    i < |pending| && j < |ChatMembers(userChats, pending[i].chatId)| ==>
      && first + MigratedCount(pending[..i], userChats) + j < |st.rows|
      && MigratedRow(st.rows[first + MigratedCount(pending[..i], userChats) + j], pending[i],
                     ChatMembers(userChats, pending[i].chatId)[j], st.keys)
  }

  /**
   * From index `first` on, the copies of the pending messages stand in pending order, those
   * of one message together and in membership order, each one opening under the keys.
   */
  ghost predicate CoversPending(first: nat, st: Migration, pending: seq<Message>, userChats: seq<UserChat>) {
    forall i: nat, j: nat :: CopyAt(first, st, pending, userChats, i, j)
  }

  /** A copy made for an earlier message keeps its place and still opens after more copies. */
  lemma CoverKept(first: nat, prev: Migration, after: Migration, earlier: seq<Message>, m: Message,
                  userChats: seq<UserChat>, i: nat, j: nat)
    requires CopyAt(first, prev, earlier, userChats, i, j) && MigrationGrows(prev, after)
    requires i < |earlier|
    ensures CopyAt(first, after, earlier + [m], userChats, i, j)
  {
    var p := earlier + [m];
    assert p[..i] == earlier[..i] && p[i] == earlier[i];
    if j < |ChatMembers(userChats, earlier[i].chatId)| {
      var k := first + MigratedCount(earlier[..i], userChats) + j;
      GrowsKeepsRow(prev, after, k);
      OpensToGrows(prev.rows[k], prev, after, earlier[i].content);
    }
  }

  /** The copies for the message migrated last follow those of the messages before it. */
  lemma CoverNew(first: nat, prev: Migration, after: Migration, earlier: seq<Message>, m: Message,
                 userChats: seq<UserChat>, j: nat)
    requires |prev.rows| == first + MigratedCount(earlier, userChats)
    requires |after.rows| == |prev.rows| + |ChatMembers(userChats, m.chatId)|
    requires j < |ChatMembers(userChats, m.chatId)| ==>
      MigratedRow(after.rows[|prev.rows| + j], m, ChatMembers(userChats, m.chatId)[j], after.keys)
    ensures CopyAt(first, after, earlier + [m], userChats, |earlier|, j)
  {
    var p := earlier + [m];
    assert p[..|earlier|] == earlier;
    assert p[|earlier|] == m;
    if j < |ChatMembers(userChats, m.chatId)| {
      var k := first + MigratedCount(p[..|earlier|], userChats) + j;
      assert k == |prev.rows| + j;
      var row := after.rows[k];
      assert row == after.rows[|prev.rows| + j];
      assert ChatMembers(userChats, p[|earlier|].chatId) == ChatMembers(userChats, m.chatId);
      assert MigratedRow(row, p[|earlier|], ChatMembers(userChats, p[|earlier|].chatId)[j], after.keys);
    }
  }

  /** One step of `MigrateMessagesCovers`, over any states that grow as `MigrateMembersSpec` says. */
  lemma CoverStep(first: nat, prev: Migration, after: Migration, earlier: seq<Message>, m: Message,
                  userChats: seq<UserChat>)
    requires CoversPending(first, prev, earlier, userChats)
    requires |prev.rows| == first + MigratedCount(earlier, userChats)
    requires MigrationGrows(prev, after) && |after.rows| == |prev.rows| + |ChatMembers(userChats, m.chatId)|
    requires forall j :: 0 <= j < |ChatMembers(userChats, m.chatId)| ==>
      MigratedRow(after.rows[|prev.rows| + j], m, ChatMembers(userChats, m.chatId)[j], after.keys)
    ensures CoversPending(first, after, earlier + [m], userChats)
  {
    forall i: nat, j: nat ensures CopyAt(first, after, earlier + [m], userChats, i, j) {
      if i < |earlier| {
        assert CopyAt(first, prev, earlier, userChats, i, j);
        CoverKept(first, prev, after, earlier, m, userChats, i, j);
      } else if i == |earlier| {
        CoverNew(first, prev, after, earlier, m, userChats, j);
      }
    }
  }

  /** Migrating one more message extends `CoversPending` by the copies for its chat's members. */
  lemma CoverStepMessage(first: nat, prev: Migration, earlier: seq<Message>, m: Message, userChats: seq<UserChat>,
                         ivs: nat -> Iv, now: int)
    requires CoversPending(first, prev, earlier, userChats)
    requires |prev.rows| == first + MigratedCount(earlier, userChats)
    ensures CoversPending(first, MigrateMembers(prev, m, ChatMembers(userChats, m.chatId), ivs, now), earlier + [m], userChats)
  {
    var members := ChatMembers(userChats, m.chatId);
    MigrateMembersSpec(prev, m, members, ivs, now);
    CoverStep(first, prev, MigrateMembers(prev, m, members, ivs, now), earlier, m, userChats);
  }

  /** A migration adds exactly `MigratedCount` rows. */
  lemma {:induction false} MigrateMessagesCount(st: Migration, pending: seq<Message>, userChats: seq<UserChat>,
                                                ivs: nat -> Iv, now: int)
    ensures |MigrateMessages(st, pending, userChats, ivs, now).rows| == |st.rows| + MigratedCount(pending, userChats)
  {
    if pending != [] {
      var n := |pending| - 1;
      var prev := MigrateMessages(st, pending[..n], userChats, ivs, now);
      MigrateMessagesCount(st, pending[..n], userChats, ivs, now);
      MigrateMembersCount(prev, pending[n], ChatMembers(userChats, pending[n].chatId), ivs, now);
    }
  }

  /** Migrating one message adds one row per member. */
  lemma {:induction false} MigrateMembersCount(st: Migration, m: Message, members: seq<string>, ivs: nat -> Iv, now: int)
    ensures |MigrateMembers(st, m, members, ivs, now).rows| == |st.rows| + |members|
  {
    if members != [] {
      MigrateMembersCount(st, m, members[..|members| - 1], ivs, now);
    }
  }

  /**
   * Every pending message gets one opening copy per member of its chat, at a position
   * fixed by the messages before it.
   */
  lemma {:induction false} MigrateMessagesCovers(st: Migration, pending: seq<Message>, userChats: seq<UserChat>,
                                                 ivs: nat -> Iv, now: int)
    ensures CoversPending(|st.rows|, MigrateMessages(st, pending, userChats, ivs, now), pending, userChats)
  {
    if pending != [] {
      var n := |pending| - 1;
      var prev := MigrateMessages(st, pending[..n], userChats, ivs, now);
      MigrateMessagesCovers(st, pending[..n], userChats, ivs, now);
      MigrateMessagesCount(st, pending[..n], userChats, ivs, now);
      CoverStepMessage(|st.rows|, prev, pending[..n], pending[n], userChats, ivs, now);
      assert pending == pending[..n] + [pending[n]];
    }
  }

  /**
   * A migration adds, for every pending message in order, one copy per membership row of
   * its chat, each opening under the final keys, and no other row; the keys it adds are the
   * default-password keys of members that had none, and the keys and rows that existed stay
   * as they were.
   */
  lemma MigrateMessagesSpec(st: Migration, pending: seq<Message>, userChats: seq<UserChat>,
                            ivs: nat -> Iv, now: int)
    ensures var after := MigrateMessages(st, pending, userChats, ivs, now);
      && MigrationGrows(st, after)
      && (forall k :: |st.rows| <= k < |after.rows| ==> FromPending(after.rows[k], pending, userChats, after.keys))
      && (forall m, u :: m in pending && IsMember(userChats, u, m.chatId) ==> u in after.keys)
      && DefaultKeysOnly(st.keys, after.keys)
      && |after.rows| == |st.rows| + MigratedCount(pending, userChats)
      && CoversPending(|st.rows|, after, pending, userChats)
  {
    MigrateMessagesCount(st, pending, userChats, ivs, now);
    MigrateMessagesCovers(st, pending, userChats, ivs, now);
    MigrateMessagesGrows(st, pending, userChats, ivs, now);
    MigrateMessagesRows(st, pending, userChats, ivs, now);
    MigrateMessagesKeys(st, pending, userChats, ivs, now);
  }

  lemma GrowsKeepsRow(before: Migration, after: Migration, k: nat)
    requires MigrationGrows(before, after) && k < |before.rows|
    ensures after.rows[k] == before.rows[k]
  {
    assert after.rows[..|before.rows|][k] == after.rows[k];
  }

  /** A row from an earlier pending prefix stays a pending row once keys are only added. */
  lemma FromPendingKept(row: EncryptedMessage, earlier: seq<Message>, pending: seq<Message>,
                        userChats: seq<UserChat>, before: Migration, after: Migration)
    requires FromPending(row, earlier, userChats, before.keys) && MigrationGrows(before, after)
    requires forall m :: m in earlier ==> m in pending
    ensures FromPending(row, pending, userChats, after.keys)
  {
    var m :| m in earlier && MigratedRow(row, m, row.userId, before.keys) && IsMember(userChats, row.userId, m.chatId);
    OpensToGrows(row, before, after, m.content);
    assert m in pending && MigratedRow(row, m, row.userId, after.keys);
  }

  /** A migration only adds copies of stored messages. */
  lemma MigrateKeepsReferences(st: Migration, pending: seq<Message>, userChats: seq<UserChat>,
                               ivs: nat -> Iv, now: int, messages: seq<Message>)
    requires RowsReferToMessages(st.rows, messages)
    requires forall m :: m in pending ==> m.id.Some? && HasMessage(messages, m.id.value)
    ensures RowsReferToMessages(MigrateMessages(st, pending, userChats, ivs, now).rows, messages)
  {
    var after := MigrateMessages(st, pending, userChats, ivs, now);
    MigrateMessagesSpec(st, pending, userChats, ivs, now);
    forall k | 0 <= k < |after.rows| ensures HasMessage(messages, after.rows[k].messageId) {
      if k < |st.rows| {
        assert after.rows[k] == st.rows[k] by {
          assert after.rows[..|st.rows|] == st.rows;
        }
      } else {
        assert FromPending(after.rows[k], pending, userChats, after.keys);
      }
    }
  }

  /** Removing the message at `i` leaves the remaining keys unique and none equal to its id. */
  lemma RemoveMessageKeys(messages: seq<Message>, i: nat)
    requires MessageKeys(messages) && i < |messages|
    ensures var rest := messages[..i] + messages[i + 1..];
      MessageKeys(rest) && !HasMessage(rest, messages[i].id.value)
  {
    var rest := messages[..i] + messages[i + 1..];
    forall j | 0 <= j < |rest| ensures rest[j] == messages[if j < i then j else j + 1] {
    }
  }

  /** Removing a message together with its copies keeps every other copy's message. */
  lemma RemoveMessageReferences(rows: seq<EncryptedMessage>, messages: seq<Message>, i: nat)
    requires MessageKeys(messages) && i < |messages|
    requires RowsReferToMessages(rows, messages)
    ensures RowsReferToMessages(KeptRows(rows, {messages[i].id.value}), messages[..i] + messages[i + 1..])
  {
    var rest := messages[..i] + messages[i + 1..];
    var kept := KeptRows(rows, {messages[i].id.value});
    forall k | 0 <= k < |kept| ensures HasMessage(rest, kept[k].messageId) {
      var row := kept[k];
      assert row in rows && row.messageId != messages[i].id.value;
      var r :| 0 <= r < |rows| && rows[r] == row;
      var j :| 0 <= j < |messages| && messages[j].id == Some(row.messageId);
      if j < i {
        assert rest[j] == messages[j];
      } else {
        assert rest[j - 1] == messages[j];
      }
    }
  }

  // =================================================================================
  // The service

  class MessageService {
    /** `_context` */
    const db: ChatDb
    /** `_encryptionService` */
    const encryption: EncryptionService

    constructor (context: ChatDb, encryptionService: EncryptionService)
      ensures db == context && encryption == encryptionService
    {
      db := context;
      encryption := encryptionService;
    }

    /**
     * Adds the message row and one encrypted copy per participant that has a key.
     * Neither the chat nor the participants are checked. A row with the same id makes
     * `SaveChanges` fail (the exception is rethrown): then nothing is stored and the
     * result is false.
     */
    method SaveMessageAsync(message: Message, participantIds: seq<string>, freshId: string,
                            ivs: nat -> Iv, now: int) returns (saved: bool)
      requires db.Valid()
      modifies db
      ensures db.Valid()
      ensures saved <==> !HasMessage(old(db.messages), SavedId(message, freshId))
      ensures saved ==> db.messages == old(db.messages) + [StoredCopy(message, SavedId(message, freshId))]
      ensures saved ==>
        db.encryptedMessages == old(db.encryptedMessages) + EncryptionRows(encryption.userKeys, SavedId(message, freshId), message.content, participantIds, ivs, now)
      ensures !saved ==> db.messages == old(db.messages) && db.encryptedMessages == old(db.encryptedMessages)
      ensures db.users == old(db.users) && db.chats == old(db.chats) && db.userChats == old(db.userChats)
      ensures RowsReferToMessages(old(db.encryptedMessages), old(db.messages)) ==>
              RowsReferToMessages(db.encryptedMessages, db.messages)
    {
      var id := SavedId(message, freshId);
      if HasMessage(db.messages, id) {
        return false;
      }
      var copy := StoredCopy(message, id);
      var rows: seq<EncryptedMessage> := [];
      for k := 0 to |participantIds|
        invariant unchanged(db)
        invariant rows == EncryptionRows(encryption.userKeys, id, message.content, participantIds[..k], ivs, now)
      {
        var p := participantIds[k];
        assert participantIds[..k + 1][..k] == participantIds[..k];
        if encryption.HasKeyForUser(p) {
          var r := encryption.EncryptMessage(message.content, p, ivs(k));
          rows := rows + [EncryptedMessage(id, p, r.value.0, r.value.1, now)];
        }
      }
      assert participantIds[..|participantIds|] == participantIds;
      EncryptionRowsSpec(encryption.userKeys, id, message.content, participantIds, ivs, now);
      ghost var oldMessages := db.messages;
      db.messages := db.messages + [copy];
      db.encryptedMessages := db.encryptedMessages + rows;
      assert db.messages[|oldMessages|].id == Some(id);
      forall x | HasMessage(oldMessages, x) ensures HasMessage(db.messages, x) {
        var i :| 0 <= i < |oldMessages| && oldMessages[i].id == Some(x);
        assert db.messages[i] == oldMessages[i];
      }
      saved := true;
    }

    /**
     * The chat's messages ordered by timestamp, each copied with `IsMyMessage` set by
     * comparing the sender with `userId`. `EncryptedMessages` is not read.
     */
    method GetUserMessagesAsync(userId: string, chatId: string) returns (result: seq<Message>)
      ensures SortedByTimestamp(result)
      ensures multiset(result) == multiset(HistoryEntries(ChatMessages(db.messages, chatId), userId))
      ensures forall i :: 0 <= i < |result| ==>
        result[i].chatId == chatId && result[i].isMyMessage == (result[i].sender == userId)
    {
      var messages := SortByTimestamp(ChatMessages(db.messages, chatId));
      result := [];
      for k := 0 to |messages|
        invariant |result| == k
        invariant forall i :: 0 <= i < k ==> result[i] == HistoryEntry(messages[i], userId)
      {
        var message := messages[k];
        var resultMessage := Message(message.id, message.sender, message.content, message.chatId,
                                     message.timestamp, message.msgType, message.isEdited,
                                     message.editedTimestamp, "", message.mediaType, message.sender == userId);
        result := result + [resultMessage];
      }
      assert result == HistoryEntries(messages, userId);
      HistoryResultSpec(db.messages, chatId, userId);
    }

    /**
     * Removes the chat's non-System messages and their encrypted copies in one
     * transaction. Without a database failure the transaction always commits.
     */
    method ClearChatHistoryAsync(chatId: string) returns (committed: bool)
      requires db.Valid()
      modifies db
      ensures db.Valid()
      ensures committed
      ensures db.messages == KeptMessages(old(db.messages), chatId)
      ensures db.encryptedMessages == KeptRows(old(db.encryptedMessages), ClearedIds(old(db.messages), chatId))
      ensures db.users == old(db.users) && db.chats == old(db.chats) && db.userChats == old(db.userChats)
      ensures RowsReferToMessages(old(db.encryptedMessages), old(db.messages)) ==>
              RowsReferToMessages(db.encryptedMessages, db.messages)
    {
      var messagesToDelete := ClearedIds(db.messages, chatId);
      if RowsReferToMessages(db.encryptedMessages, db.messages) {
        ClearKeepsReferences(db.encryptedMessages, db.messages, chatId);
      }
      KeptMessagesKeys(db.messages, chatId);
      db.encryptedMessages := KeptRows(db.encryptedMessages, messagesToDelete);
      db.messages := KeptMessages(db.messages, chatId);
      committed := true;
    }

    /**
     * Finds the message by id, else by sender, chat and a timestamp less than a minute
     * away; returns false when there is none. Otherwise replaces content, edited flag and
     * edit time, and for each keyed participant overwrites the first saved encrypted copy
     * of the message or adds one.
     */
    method UpdateMessageAsync(message: Message, participantIds: seq<string>, ivs: nat -> Iv, now: int)
      returns (updated: bool)
      requires db.Valid()
      modifies db
      ensures db.Valid()
      ensures updated <==> FindUpdateTarget(old(db.messages), message).Some?
      ensures !updated ==> db.messages == old(db.messages) && db.encryptedMessages == old(db.encryptedMessages)
      ensures updated ==>
        var i := FindUpdateTarget(old(db.messages), message).value;
        && db.messages == old(db.messages)[i := Edited(old(db.messages)[i], message)]
        && db.encryptedMessages == ReencryptRows(old(db.encryptedMessages), old(db.messages)[i].id.GetOr(""),
                                                 message.content, encryption.userKeys, participantIds, ivs, now)
      ensures db.users == old(db.users) && db.chats == old(db.chats) && db.userChats == old(db.userChats)
      ensures RowsReferToMessages(old(db.encryptedMessages), old(db.messages)) ==>
              RowsReferToMessages(db.encryptedMessages, db.messages)
    {
      var target := FindUpdateTarget(db.messages, message);
      if target.None? {
        return false;
      }
      var i := target.value;
      var existing := db.messages[i];
      var id := existing.id.GetOr("");
      var saved := db.encryptedMessages;
      var rows := saved;
      for k := 0 to |participantIds|
        invariant unchanged(db)
        invariant rows == ReencryptRows(saved, id, message.content, encryption.userKeys, participantIds[..k], ivs, now)
      {
        var p := participantIds[k];
        assert participantIds[..k + 1][..k] == participantIds[..k];
        if encryption.HasKeyForUser(p) {
          var r := encryption.EncryptMessage(message.content, p, ivs(k));
          var found := FirstRow(saved, id, p);
          if found.Some? {
            var j := found.value;
            rows := rows[j := rows[j].(encryptedContent := r.value.0, iv := r.value.1)];
          } else {
            rows := rows + [EncryptedMessage(id, p, r.value.0, r.value.1, now)];
          }
        }
      }
      assert participantIds[..|participantIds|] == participantIds;
      ReencryptRowsFrame(saved, id, message.content, encryption.userKeys, participantIds, ivs, now);

      ghost var oldMessages := db.messages;
      db.messages := db.messages[i := Edited(existing, message)];
      db.encryptedMessages := rows;
      assert db.messages[i].id == Some(id);
      forall x | HasMessage(oldMessages, x) ensures HasMessage(db.messages, x) {
        var j :| 0 <= j < |oldMessages| && oldMessages[j].id == Some(x);
        assert db.messages[j].id == oldMessages[j].id;
      }
      if RowsReferToMessages(saved, oldMessages) {
        forall k | 0 <= k < |rows| ensures HasMessage(db.messages, rows[k].messageId) {
          if k < |saved| {
            assert RowOf(rows[k], saved[k].messageId, saved[k].userId);
            assert HasMessage(oldMessages, saved[k].messageId);
          }
        }
      }
      updated := true;
    }

    /**
     * Removes the message with this id and every encrypted copy of it; returns false,
     * changing nothing, when no message has this id.
     */
    method DeleteMessageAsync(messageId: string) returns (deleted: bool)
      requires db.Valid()
      modifies db
      ensures db.Valid()
      ensures deleted <==> HasMessage(old(db.messages), messageId)
      ensures !deleted ==> db.messages == old(db.messages) && db.encryptedMessages == old(db.encryptedMessages)
      ensures deleted ==> exists i :: 0 <= i < |old(db.messages)| && old(db.messages)[i].id == Some(messageId) &&
                                      db.messages == old(db.messages)[..i] + old(db.messages)[i + 1..]
      ensures deleted ==> db.encryptedMessages == KeptRows(old(db.encryptedMessages), {messageId})
      ensures !HasMessage(db.messages, messageId)
      ensures db.users == old(db.users) && db.chats == old(db.chats) && db.userChats == old(db.userChats)
      ensures RowsReferToMessages(old(db.encryptedMessages), old(db.messages)) ==>
              RowsReferToMessages(db.encryptedMessages, db.messages)
    {
      var found := FirstIndex(db.messages, (m: Message) => m.id == Some(messageId));
      if found.None? {
        return false;
      }
      var i := found.value;
      RemoveMessageKeys(db.messages, i);
      if RowsReferToMessages(db.encryptedMessages, db.messages) {
        RemoveMessageReferences(db.encryptedMessages, db.messages, i);
      }
      db.encryptedMessages := KeptRows(db.encryptedMessages, {messageId});
      db.messages := db.messages[..i] + db.messages[i + 1..];
      deleted := true;
    }

    /** Lines 273-291 for one message: one copy per member, deriving missing keys first. */
    method EncryptForMembers(message: Message, participantIds: seq<string>, rows: seq<EncryptedMessage>,
                             ivs: nat -> Iv, now: int) returns (result: seq<EncryptedMessage>)
      modifies encryption
      ensures Migration(encryption.userKeys, result) ==
              MigrateMembers(Migration(old(encryption.userKeys), rows), message, participantIds, ivs, now)
    {
      ghost var before := Migration(encryption.userKeys, rows);
      result := rows;
      for j := 0 to |participantIds|
        invariant Migration(encryption.userKeys, result) == MigrateMembers(before, message, participantIds[..j], ivs, now)
      {
        var participantId := participantIds[j];
        assert participantIds[..j + 1][..j] == participantIds[..j];
        if !encryption.HasKeyForUser(participantId) {
          var _ := encryption.GenerateAndStoreUserKey(participantId, DefaultPassword(participantId));
        }
        var r := encryption.EncryptMessage(message.content, participantId, ivs(|result|));
        result := result + [EncryptedMessage(message.id.GetOr(""), participantId, r.value.0, r.value.1, now)];
      }
      assert participantIds[..|participantIds|] == participantIds;
    }

    /**
     * Gives every message that has no encrypted copy one copy per member of its chat,
     * deriving a default-password key for members that have none. Chats without members
     * are skipped.
     */
    method MigrateExistingMessagesToEncrypted(ivs: nat -> Iv, now: int)
      requires db.Valid()
      modifies db, encryption
      ensures db.Valid()
      ensures Migration(encryption.userKeys, db.encryptedMessages) ==
        MigrateMessages(Migration(old(encryption.userKeys), old(db.encryptedMessages)),
                        MessagesWithoutRows(old(db.messages), old(db.encryptedMessages)), old(db.userChats), ivs, now)
      ensures db.messages == old(db.messages) && db.users == old(db.users)
      ensures db.chats == old(db.chats) && db.userChats == old(db.userChats)
      ensures RowsReferToMessages(old(db.encryptedMessages), old(db.messages)) ==>
              RowsReferToMessages(db.encryptedMessages, db.messages)
    {
      var messagesWithoutEncryption := MessagesWithoutRows(db.messages, db.encryptedMessages);
      ghost var start := Migration(encryption.userKeys, db.encryptedMessages);
      var rows := db.encryptedMessages;
      for i := 0 to |messagesWithoutEncryption|
        invariant unchanged(db)
        invariant Migration(encryption.userKeys, rows) ==
                  MigrateMessages(start, messagesWithoutEncryption[..i], db.userChats, ivs, now)
      {
        var message := messagesWithoutEncryption[i];
        assert messagesWithoutEncryption[..i + 1][..i] == messagesWithoutEncryption[..i];
        var participantIds := ChatMembers(db.userChats, message.chatId);
        if participantIds == [] {
          continue;
        }
        rows := EncryptForMembers(message, participantIds, rows, ivs, now);
      }
      assert messagesWithoutEncryption[..|messagesWithoutEncryption|] == messagesWithoutEncryption;
      if RowsReferToMessages(db.encryptedMessages, db.messages) {
        forall m | m in messagesWithoutEncryption ensures m.id.Some? && HasMessage(db.messages, m.id.value) {
          var j :| 0 <= j < |db.messages| && db.messages[j] == m;
        }
        MigrateKeepsReferences(start, messagesWithoutEncryption, db.userChats, ivs, now, db.messages);
      }
      db.encryptedMessages := rows;
    }
  }
}
