/**
 * The bookkeeping of the server's Program.cs: the per-frame dispatch of `HandleClient`
 * without the socket, and its helpers over the database and the static lists
 * `_messageHistory` and `_connectedUsers`.
 *
 * `Guid.NewGuid()` and `DateTime.Now` are parameters; the sockets, the broadcast and the
 * transmission of chat histories are not part of this model.
 */
module ServerHost {
  import opened Common
  import opened Strings
  import opened Encryption
  import opened Models
  import opened Database
  import opened MessageStore

  /** Line 122: the chat a frame without a chat id goes to. */
  const DefaultChatId: string := "general"
  /** Line 128: the name of a chat created for a frame. */
  const NewChatName: string := "Новый чат"
  /** Line 115: what a System frame announcing a new chat contains. */
  const CreationMarker: string := "создал чат"
  /** Lines 139 and 152: what a System frame announcing a join contains. */
  const JoinMarker: string := "присоединился"

  /** Line 231: the name of a chat created by `HandleChatCreation`. */
  function CreatedChatName(chatId: string): string {
    "Чат " + chatId
  }

  /** `FirstOrDefault(u => u.Username == username)` as an index. */
  function UserNamed(users: seq<User>, username: string): (r: Option<nat>)
    ensures r.Some? ==> r.value < |users| && users[r.value].username == username
    ensures r.Some? ==> forall j :: 0 <= j < r.value ==> users[j].username != username
    ensures r.None? <==> forall i :: 0 <= i < |users| ==> users[i].username != username
  {
    FirstIndex(users, (u: User) => u.username == username)
  }

  /** With unique names, the lookup of a stored name finds its own row. */
  lemma UserNamedUnique(users: seq<User>, i: nat)
    requires UniqueUsernames(users) && i < |users|
    ensures UserNamed(users, users[i].username) == Some(i)
  {
  }

  /** The lookup after an append finds the old row, else the appended one. */
  lemma UserNamedAppend(users: seq<User>, u: User, username: string)
    ensures UserNamed(users + [u], username) ==
      if UserNamed(users, username).Some? then UserNamed(users, username)
      else if u.username == username then Some(|users|) else None
  {
    forall j | 0 <= j < |users| ensures (users + [u])[j] == users[j] {}
    assert (users + [u])[|users|] == u;
  }

  /** The new user row of lines 321-327 and 240-246. */
  function NewUser(userId: string, username: string): User {
    User(userId, username, true, OnlineStatus)
  }

  // =================================================================================
  // SaveUserToDatabase (lines 314-342), and the creator lookup of lines 237-249

  /**
   * The id returned for `username`: the stored user's, else the fresh Guid; `None` when
   * the insert fails because the fresh Guid is already a user id (the null of line 340).
   */
  function RegisteredId(users: seq<User>, username: string, newGuid: string): Option<string> {
    match UserNamed(users, username)
    case Some(i) => Some(users[i].userId)
    case None => if UserExists(users, newGuid) then None else Some(newGuid)
  }

  /** The `Users` table after the lookup-or-insert. */
  function RegisteredUsers(users: seq<User>, username: string, newGuid: string): seq<User> {
    if UserNamed(users, username).None? && !UserExists(users, newGuid) then users + [NewUser(newGuid, username)]
    else users
  }

  /**
   * After a successful registration the name is stored under the returned id, and the
   * table keeps unique ids and unique names; a registration only inserts when the name
   * is absent.
   */
  lemma RegisterUserSpec(users: seq<User>, username: string, newGuid: string)
    requires UniqueUserIds(users) && UniqueUsernames(users)
    ensures var after := RegisteredUsers(users, username, newGuid);
      && UniqueUserIds(after) && UniqueUsernames(after)
      && (RegisteredId(users, username, newGuid).Some? <==> UserNamed(after, username).Some?)
      && (RegisteredId(users, username, newGuid).Some? ==>
            after[UserNamed(after, username).value].userId == RegisteredId(users, username, newGuid).value)
      && (UserNamed(users, username).Some? ==> after == users)
      && (forall u :: UserExists(users, u) ==> UserExists(after, u))
  {
    var after := RegisteredUsers(users, username, newGuid);
    if UserNamed(users, username).None? && !UserExists(users, newGuid) {
      assert after[|users|].username == username;
      UserNamedUnique(after, |users|);
      forall u | UserExists(users, u) ensures UserExists(after, u) {
        var i :| 0 <= i < |users| && users[i].userId == u;
        assert after[i] == users[i];
      }
    }
  }

  /** Registering a name a second time, with any fresh Guid, returns the same id and inserts nothing. */
  lemma RegisterUserIdempotent(users: seq<User>, username: string, guid1: string, guid2: string)
    requires UniqueUserIds(users) && UniqueUsernames(users)
    requires RegisteredId(users, username, guid1).Some?
    ensures var after := RegisteredUsers(users, username, guid1);
      && RegisteredUsers(after, username, guid2) == after
      && RegisteredId(after, username, guid2) == RegisteredId(users, username, guid1)
  {
    RegisterUserSpec(users, username, guid1);
  }

  // =================================================================================
  // Memberships (lines 344-387 and 416-458)

  lemma IsMemberConcat(a: seq<UserChat>, b: seq<UserChat>, userId: string, chatId: string)
    ensures IsMember(a + b, userId, chatId) <==> IsMember(a, userId, chatId) || IsMember(b, userId, chatId)
  {
    if IsMember(a + b, userId, chatId) {
      var i :| 0 <= i < |a + b| && (a + b)[i].userId == userId && (a + b)[i].chatId == chatId;
      if i >= |a| { assert b[i - |a|] == (a + b)[i]; }
    }
    if IsMember(b, userId, chatId) {
      var i :| 0 <= i < |b| && b[i].userId == userId && b[i].chatId == chatId;
      assert (a + b)[|a| + i] == b[i];
    }
    if IsMember(a, userId, chatId) {
      var i :| 0 <= i < |a| && a[i].userId == userId && a[i].chatId == chatId;
      assert (a + b)[i] == a[i];
    }
  }

  /** None of `rows` repeats a (user, chat) pair of `saved`. */
  predicate FreshPairs(rows: seq<UserChat>, saved: seq<UserChat>) {
    forall k :: 0 <= k < |rows| ==> !IsMember(saved, rows[k].userId, rows[k].chatId)
  }

  lemma UniqueConcat(a: seq<UserChat>, b: seq<UserChat>)
    requires UniqueMemberships(a) && UniqueMemberships(b) && FreshPairs(b, a)
    ensures UniqueMemberships(a + b)
  {
    var c := a + b;
    forall i, j | 0 <= i < j < |c| ensures c[i].userId != c[j].userId || c[i].chatId != c[j].chatId {
      if j >= |a| {
        assert c[j] == b[j - |a|];
        if i < |a| {
          assert c[i] == a[i];
          assert !IsMember(a, b[j - |a|].userId, b[j - |a|].chatId);
        } else {
          assert c[i] == b[i - |a|];
        }
      }
    }
  }

  /** Lines 355-374 for one user: the memberships it lacks among `chats`, in chat order. */
  function UserMemberships(user: User, chats: seq<Chat>, saved: seq<UserChat>, now: int): seq<UserChat> {
    if chats == [] then []
    else
      var m := |chats| - 1;
      var c := chats[m].chatId;
      UserMemberships(user, chats[..m], saved, now) +
        (if user.userId != "" && c != "" && !IsMember(saved, user.userId, c) then [UserChat(user.userId, c, now)] else [])
  }

  /** Lines 353-376: the memberships missing from `saved`, user by user. */
  function MissingMemberships(users: seq<User>, chats: seq<Chat>, saved: seq<UserChat>, now: int): seq<UserChat> {
    if users == [] then []
    else
      var n := |users| - 1;
      MissingMemberships(users[..n], chats, saved, now) + UserMemberships(users[n], chats, saved, now)
  }

  lemma {:induction false} UserMembershipsSpec(user: User, chats: seq<Chat>, saved: seq<UserChat>, now: int)
    requires UniqueChatIds(chats)
    ensures var rows := UserMemberships(user, chats, saved, now);
      && UniqueMemberships(rows)
      && FreshPairs(rows, saved)
      && (forall k :: 0 <= k < |rows| ==> rows[k].userId == user.userId && ChatExists(chats, rows[k].chatId))
      && (forall j :: 0 <= j < |chats| && user.userId != "" && chats[j].chatId != "" ==>
            IsMember(saved, user.userId, chats[j].chatId) || IsMember(rows, user.userId, chats[j].chatId))
  {
    if chats != [] {
      var m := |chats| - 1;
      var c := chats[m].chatId;
      var prev := UserMemberships(user, chats[..m], saved, now);
      var rows := UserMemberships(user, chats, saved, now);
      UserMembershipsSpec(user, chats[..m], saved, now);
      forall k | 0 <= k < |prev| ensures ChatExists(chats, prev[k].chatId) && prev[k].chatId != c {
        var j :| 0 <= j < |chats[..m]| && chats[..m][j].chatId == prev[k].chatId;
        assert chats[j] == chats[..m][j];
      }
      if user.userId != "" && c != "" && !IsMember(saved, user.userId, c) {
        var row := UserChat(user.userId, c, now);
        assert rows == prev + [row];
        UniqueConcat(prev, [row]);
        assert ChatExists(chats, c) by { assert chats[m].chatId == c; }
        forall j | 0 <= j < |chats| && user.userId != "" && chats[j].chatId != ""
          ensures IsMember(saved, user.userId, chats[j].chatId) || IsMember(rows, user.userId, chats[j].chatId)
        {
          IsMemberConcat(prev, [row], user.userId, chats[j].chatId);
          if j < m {
            assert chats[..m][j] == chats[j];
          } else {
            assert rows[|prev|] == row;
          }
        }
      } else {
        assert rows == prev;
        forall j | 0 <= j < |chats| && user.userId != "" && chats[j].chatId != ""
          ensures IsMember(saved, user.userId, chats[j].chatId) || IsMember(rows, user.userId, chats[j].chatId)
        {
          if j < m {
            assert chats[..m][j] == chats[j];
          }
        }
      }
    }
  }

  /** Every membership `MissingMemberships` adds names a listed user and a listed chat. */
  lemma {:induction false} MissingMembershipsRefer(users: seq<User>, chats: seq<Chat>, saved: seq<UserChat>, now: int)
    requires UniqueChatIds(chats)
    ensures forall k :: 0 <= k < |MissingMemberships(users, chats, saved, now)| ==>
      && UserExists(users, MissingMemberships(users, chats, saved, now)[k].userId)
      && ChatExists(chats, MissingMemberships(users, chats, saved, now)[k].chatId)
  {
    if users != [] {
      var n := |users| - 1;
      var prev := MissingMemberships(users[..n], chats, saved, now);
      var mine := UserMemberships(users[n], chats, saved, now);
      var rows := MissingMemberships(users, chats, saved, now);
      MissingMembershipsRefer(users[..n], chats, saved, now);
      UserMembershipsSpec(users[n], chats, saved, now);
      assert rows == prev + mine;
      forall k | 0 <= k < |rows| ensures UserExists(users, rows[k].userId) && ChatExists(chats, rows[k].chatId) {
        if k < |prev| {
          assert rows[k] == prev[k];
          var i :| 0 <= i < |users[..n]| && users[..n][i].userId == prev[k].userId;
          assert users[i] == users[..n][i];
        } else {
          assert rows[k] == mine[k - |prev|];
          assert users[n].userId == rows[k].userId;
        }
      }
    }
  }

  /** The added memberships repeat no pair, neither among themselves nor of `saved`. */
  lemma {:induction false} MissingMembershipsFresh(users: seq<User>, chats: seq<Chat>, saved: seq<UserChat>, now: int)
    requires UniqueUserIds(users) && UniqueChatIds(chats)
    ensures var rows := MissingMemberships(users, chats, saved, now);
      UniqueMemberships(rows) && FreshPairs(rows, saved)
  {
    if users != [] {
      var n := |users| - 1;
      var u := users[n];
      var prev := MissingMemberships(users[..n], chats, saved, now);
      var mine := UserMemberships(u, chats, saved, now);
      assert UniqueUserIds(users[..n]);
      MissingMembershipsFresh(users[..n], chats, saved, now);
      MissingMembershipsRefer(users[..n], chats, saved, now);
      UserMembershipsSpec(u, chats, saved, now);
      forall k | 0 <= k < |mine| ensures !IsMember(prev, mine[k].userId, mine[k].chatId) {
        forall t | 0 <= t < |prev| ensures prev[t].userId != mine[k].userId {
          var i :| 0 <= i < |users[..n]| && users[..n][i].userId == prev[t].userId;
          assert users[i] == users[..n][i];
        }
      }
      UniqueConcat(prev, mine);
      var rows := prev + mine;
      forall k | 0 <= k < |rows| ensures !IsMember(saved, rows[k].userId, rows[k].chatId) {
        if k < |prev| { assert rows[k] == prev[k]; } else { assert rows[k] == mine[k - |prev|]; }
      }
    }
  }

  /** Every (user, chat) pair with non-empty ids is a member of `saved` or of the added rows. */
  lemma {:induction false} MissingMembershipsCover(users: seq<User>, chats: seq<Chat>, saved: seq<UserChat>, now: int)
    requires UniqueChatIds(chats)
    ensures forall i, j :: 0 <= i < |users| && 0 <= j < |chats| && users[i].userId != "" && chats[j].chatId != "" ==>
      IsMember(saved + MissingMemberships(users, chats, saved, now), users[i].userId, chats[j].chatId)
  {
    if users != [] {
      var n := |users| - 1;
      var prev := MissingMemberships(users[..n], chats, saved, now);
      var mine := UserMemberships(users[n], chats, saved, now);
      var rows := MissingMemberships(users, chats, saved, now);
      MissingMembershipsCover(users[..n], chats, saved, now);
      UserMembershipsSpec(users[n], chats, saved, now);
      assert saved + rows == (saved + prev) + mine;
      forall i, j | 0 <= i < |users| && 0 <= j < |chats| && users[i].userId != "" && chats[j].chatId != ""
        ensures IsMember(saved + rows, users[i].userId, chats[j].chatId)
      {
        IsMemberConcat(saved + prev, mine, users[i].userId, chats[j].chatId);
        IsMemberConcat(saved, prev, users[i].userId, chats[j].chatId);
        if i < n {
          assert users[..n][i] == users[i];
        }
      }
    }
  }

  /**
   * `EnsureUserChatRelationships` leaves every (user, chat) pair with non-empty ids with
   * exactly one membership: each pair is covered, no pair is stored twice, the existing
   * memberships stay, and every added membership names a listed user and chat.
   */
  lemma MissingMembershipsSpec(users: seq<User>, chats: seq<Chat>, saved: seq<UserChat>, now: int)
    requires UniqueUserIds(users) && UniqueChatIds(chats) && UniqueMemberships(saved)
    ensures var rows := MissingMemberships(users, chats, saved, now);
      && UniqueMemberships(saved + rows)
      && (forall k :: 0 <= k < |rows| ==> UserExists(users, rows[k].userId) && ChatExists(chats, rows[k].chatId))
      && (forall i, j :: 0 <= i < |users| && 0 <= j < |chats| && users[i].userId != "" && chats[j].chatId != "" ==>
            IsMember(saved + rows, users[i].userId, chats[j].chatId))
  {
    MissingMembershipsRefer(users, chats, saved, now);
    MissingMembershipsFresh(users, chats, saved, now);
    MissingMembershipsCover(users, chats, saved, now);
    UniqueConcat(saved, MissingMemberships(users, chats, saved, now));
  }

  /** Lines 427-447: the memberships of `chatId` missing for the listed users. */
  function NewChatMemberships(users: seq<User>, chatId: string, saved: seq<UserChat>, now: int): seq<UserChat> {
    if users == [] then []
    else
      var n := |users| - 1;
      NewChatMemberships(users[..n], chatId, saved, now) +
        (if users[n].userId != "" && !IsMember(saved, users[n].userId, chatId) then [UserChat(users[n].userId, chatId, now)] else [])
  }

  /**
   * `rows` added to `saved` keep memberships unique, name listed users and the chat, and
   * make every user with a non-empty id a member of the chat.
   */
  ghost predicate NewChatRowsOk(users: seq<User>, chatId: string, saved: seq<UserChat>, rows: seq<UserChat>) {
    && UniqueMemberships(saved + rows)
    && (forall k :: 0 <= k < |rows| ==> UserExists(users, rows[k].userId) && rows[k].chatId == chatId)
    && (forall i :: 0 <= i < |users| && users[i].userId != "" ==> IsMember(saved + rows, users[i].userId, chatId))
  }

  /** One step of `NewChatMembershipsSpec`: one more user. */
  lemma NewChatStep(users: seq<User>, chatId: string, saved: seq<UserChat>, prev: seq<UserChat>, now: int)
    requires users != [] && UniqueUserIds(users) && UniqueMemberships(saved)
    requires NewChatRowsOk(users[..|users| - 1], chatId, saved, prev)
    ensures var u := users[|users| - 1];
      NewChatRowsOk(users, chatId, saved,
        prev + (if u.userId != "" && !IsMember(saved, u.userId, chatId) then [UserChat(u.userId, chatId, now)] else []))
  {
    var n := |users| - 1;
    var u := users[n];
    var rows := prev + (if u.userId != "" && !IsMember(saved, u.userId, chatId) then [UserChat(u.userId, chatId, now)] else []);
    forall k | 0 <= k < |prev| ensures UserExists(users, prev[k].userId) && prev[k].userId != u.userId {
      var i :| 0 <= i < |users[..n]| && users[..n][i].userId == prev[k].userId;
      assert users[i] == users[..n][i];
    }
    if u.userId != "" && !IsMember(saved, u.userId, chatId) {
      var row := UserChat(u.userId, chatId, now);
      assert rows == prev + [row];
      assert saved + rows == (saved + prev) + [row];
      IsMemberConcat(saved, prev, u.userId, chatId);
      assert !IsMember(prev, u.userId, chatId);
      UniqueConcat(saved + prev, [row]);
      forall i | 0 <= i < |users| && users[i].userId != "" ensures IsMember(saved + rows, users[i].userId, chatId) {
        IsMemberConcat(saved + prev, [row], users[i].userId, chatId);
        if i < n { assert users[..n][i] == users[i]; }
        else { assert [row][0] == row; }
      }
      assert UserExists(users, u.userId) by { assert users[n] == u; }
      forall k | 0 <= k < |rows| ensures UserExists(users, rows[k].userId) && rows[k].chatId == chatId {
        if k < |prev| { assert rows[k] == prev[k]; }
      }
    } else {
      assert rows == prev;
      forall i | 0 <= i < |users| && users[i].userId != "" ensures IsMember(saved + rows, users[i].userId, chatId) {
        IsMemberConcat(saved, prev, users[i].userId, chatId);
        if i < n { assert users[..n][i] == users[i]; }
      }
    }
  }

  /**
   * After `CreateUserChatRelationshipsForNewChat`, every user with a non-empty id is a
   * member of the chat exactly once, and every added membership names a listed user.
   */
  lemma {:induction false} NewChatMembershipsSpec(users: seq<User>, chatId: string, saved: seq<UserChat>, now: int)
    requires UniqueUserIds(users) && UniqueMemberships(saved)
    ensures NewChatRowsOk(users, chatId, saved, NewChatMemberships(users, chatId, saved, now))
  {
    if users == [] {
      assert saved + [] == saved;
    } else {
      var n := |users| - 1;
      assert UniqueUserIds(users[..n]);
      NewChatMembershipsSpec(users[..n], chatId, saved, now);
      NewChatStep(users, chatId, saved, NewChatMemberships(users[..n], chatId, saved, now), now);
    }
  }


  /** Lines 156-159: the chats of a user's memberships, in table order. */
  function ChatsOfUser(userChats: seq<UserChat>, userId: string): (r: seq<string>)
    ensures forall c :: c in r <==> IsMember(userChats, userId, c)
  {
    if userChats == [] then []
    else
      var rest := ChatsOfUser(userChats[1..], userId);
      var head := if userChats[0].userId == userId then [userChats[0].chatId] else [];
      assert forall c :: c in head + rest <==> IsMember(userChats, userId, c) by {
        forall c ensures c in head + rest <==> IsMember(userChats, userId, c) {
          if c in rest {
            var i :| 0 <= i < |userChats[1..]| && userChats[1..][i].userId == userId && userChats[1..][i].chatId == c;
            assert userChats[i + 1] == userChats[1..][i];
          }
          if IsMember(userChats, userId, c) {
            var i :| 0 <= i < |userChats| && userChats[i].userId == userId && userChats[i].chatId == c;
            if i > 0 {
              assert userChats[1..][i - 1] == userChats[i];
            }
          }
        }
      }
      head + rest
  }

  // =================================================================================
  // SyncConnectedUsersWithDatabase (lines 460-492)

  /** Lines 469-480 for one connected user: the copy that survives, if any. */
  function Resynced(user: User, dbUsers: seq<User>): Option<User> {
    match UserNamed(dbUsers, user.username)
    case Some(i) => Some(user.(userId := dbUsers[i].userId))
    case None => None
  }

  /** The connected list after the sync: survivors in their order, with database ids. */
  function SyncedUsers(connected: seq<User>, dbUsers: seq<User>): seq<User> {
    if connected == [] then []
    else
      var n := |connected| - 1;
      SyncedUsers(connected[..n], dbUsers) +
        match Resynced(connected[n], dbUsers) case Some(u) => [u] case None => []
  }

  /** The positions of the connected users that survive the sync. */
  function SurvivorPositions(connected: seq<User>, dbUsers: seq<User>): seq<nat> {
    if connected == [] then []
    else
      var n := |connected| - 1;
      SurvivorPositions(connected[..n], dbUsers) + (if UserNamed(dbUsers, connected[n].username).Some? then [n] else [])
  }

  /**
   * `pos` lists, strictly increasing, exactly the positions of the connected users whose
   * name is stored.
   */
  ghost predicate PositionsOf(pos: seq<nat>, connected: seq<User>, dbUsers: seq<User>) {
    && (forall t :: 0 <= t < |pos| ==> pos[t] < |connected| && UserNamed(dbUsers, connected[pos[t]].username).Some?)
    && (forall s, t :: 0 <= s < t < |pos| ==> pos[s] < pos[t])
    && (forall k :: 0 <= k < |connected| && UserNamed(dbUsers, connected[k].username).Some? ==> k in pos)
  }

  /** One step of `SurvivorPositionsSpec`: one more connected user. */
  lemma PositionsStep(prev: seq<nat>, connected: seq<User>, dbUsers: seq<User>)
    requires connected != []
    requires PositionsOf(prev, connected[..|connected| - 1], dbUsers)
    ensures var n := |connected| - 1;
      PositionsOf(prev + (if UserNamed(dbUsers, connected[n].username).Some? then [n] else []), connected, dbUsers)
  {
    var n := |connected| - 1;
    var pos := prev + (if UserNamed(dbUsers, connected[n].username).Some? then [n] else []);
    forall t | 0 <= t < |pos|
      ensures pos[t] < |connected| && UserNamed(dbUsers, connected[pos[t]].username).Some?
    {
      if t < |prev| {
        assert pos[t] == prev[t] < n;
        assert connected[prev[t]] == connected[..n][prev[t]];
      } else {
        assert pos[t] == n;
      }
    }
    forall s, t | 0 <= s < t < |pos| ensures pos[s] < pos[t] {
      if t < |prev| {
        assert pos[s] == prev[s] && pos[t] == prev[t];
      } else {
        assert pos[s] == prev[s] < n == pos[t];
      }
    }
    forall k | 0 <= k < |connected| && UserNamed(dbUsers, connected[k].username).Some? ensures k in pos {
      if k < n {
        assert connected[..n][k] == connected[k];
        assert k in prev;
      } else {
        assert pos[|prev|] == n;
      }
    }
  }

  /**
   * The survivor positions are the positions of the connected users whose name is
   * stored, strictly increasing.
   */
  lemma {:induction false} SurvivorPositionsSpec(connected: seq<User>, dbUsers: seq<User>)
    ensures PositionsOf(SurvivorPositions(connected, dbUsers), connected, dbUsers)
  {
    if connected != [] {
      var n := |connected| - 1;
      SurvivorPositionsSpec(connected[..n], dbUsers);
      PositionsStep(SurvivorPositions(connected[..n], dbUsers), connected, dbUsers);
    }
  }

  /** `r` holds, in order, the connected users at `pos`, each carrying the stored user's id. */
  ghost predicate SyncedAt(r: seq<User>, pos: seq<nat>, connected: seq<User>, dbUsers: seq<User>) {
    && |r| == |pos|
    && (forall t :: 0 <= t < |pos| ==>
          && pos[t] < |connected|
          && UserNamed(dbUsers, connected[pos[t]].username).Some?
          && r[t] == connected[pos[t]].(userId := dbUsers[UserNamed(dbUsers, connected[pos[t]].username).value].userId))
  }

  /** One step of `SyncedUsersSpec`: one more connected user. */
  lemma SyncedStep(prev: seq<User>, prevPos: seq<nat>, connected: seq<User>, dbUsers: seq<User>)
    requires connected != []
    requires SyncedAt(prev, prevPos, connected[..|connected| - 1], dbUsers)
    ensures var n := |connected| - 1;
      SyncedAt(prev + (match Resynced(connected[n], dbUsers) case Some(u) => [u] case None => []),
               prevPos + (if UserNamed(dbUsers, connected[n].username).Some? then [n] else []),
               connected, dbUsers)
  {
    var n := |connected| - 1;
    forall t | 0 <= t < |prevPos| ensures connected[prevPos[t]] == connected[..n][prevPos[t]] {}
  }

  /**
   * After the sync, the survivors stand at the survivor positions, in their original
   * relative order, each carrying the stored user's id and otherwise unchanged.
   */
  lemma {:induction false} SyncedUsersSpec(connected: seq<User>, dbUsers: seq<User>)
    ensures SyncedAt(SyncedUsers(connected, dbUsers), SurvivorPositions(connected, dbUsers), connected, dbUsers)
  {
    if connected != [] {
      var n := |connected| - 1;
      SyncedUsersSpec(connected[..n], dbUsers);
      SyncedStep(SyncedUsers(connected[..n], dbUsers), SurvivorPositions(connected[..n], dbUsers), connected, dbUsers);
    }
  }

  /** Every survivor's name is stored, with the same id as the stored user. */
  lemma SyncedUsersRegistered(connected: seq<User>, dbUsers: seq<User>)
    ensures forall t :: 0 <= t < |SyncedUsers(connected, dbUsers)| ==>
      var u := SyncedUsers(connected, dbUsers)[t];
      var i := UserNamed(dbUsers, u.username);
      i.Some? && dbUsers[i.value].userId == u.userId
  {
    SyncedUsersSpec(connected, dbUsers);
  }

  lemma {:induction false} SyncedUsersUnique(connected: seq<User>, dbUsers: seq<User>)
    requires UniqueUsernames(connected)
    ensures UniqueUsernames(SyncedUsers(connected, dbUsers))
  {
    SyncedUsersSpec(connected, dbUsers);
    SurvivorPositionsSpec(connected, dbUsers);
    var r := SyncedUsers(connected, dbUsers);
    var pos := SurvivorPositions(connected, dbUsers);
    forall s, t | 0 <= s < t < |r| ensures r[s].username != r[t].username {
      assert r[s].username == connected[pos[s]].username;
      assert r[t].username == connected[pos[t]].username;
      assert pos[s] < pos[t];
    }
  }

  // =================================================================================
  // HandleClient (lines 113-199)

  /** Lines 120-123: the frame with its chat id defaulted. */
  function Routed(frame: Message): (r: Message)
    ensures r.chatId != ""
    ensures r == frame.(chatId := r.chatId)
    ensures frame.chatId != "" ==> r == frame
  {
    if frame.chatId == "" then frame.(chatId := DefaultChatId) else frame
  }

  /** Lines 175-178: the non-empty ids of the connected users, in list order. */
  function ParticipantIds(users: seq<User>): (r: seq<string>)
    ensures |r| <= |users|
    ensures forall p :: p in r <==> p != "" && UserExists(users, p)
  {
    if users == [] then []
    else
      var n := |users| - 1;
      var prev := ParticipantIds(users[..n]);
      assert forall p :: UserExists(users, p) <==> UserExists(users[..n], p) || users[n].userId == p by {
        forall p | UserExists(users, p) && users[n].userId != p ensures UserExists(users[..n], p) {
          var i :| 0 <= i < |users| && users[i].userId == p;
          assert users[..n][i] == users[i];
        }
        forall p | UserExists(users[..n], p) ensures UserExists(users, p) {
          var i :| 0 <= i < n && users[..n][i].userId == p;
          assert users[i] == users[..n][i];
        }
      }
      prev + (if users[n].userId != "" then [users[n].userId] else [])
  }

  /**
   * `ParticipantIds` keeps list order: the ids of a concatenation are the ids of its
   * parts, one after the other, and a single user contributes its id exactly when it is
   * not empty.
   */
  lemma {:induction false} ParticipantIdsConcat(a: seq<User>, b: seq<User>)
    ensures ParticipantIds(a + b) == ParticipantIds(a) + ParticipantIds(b)
  {
    if b == [] {
      assert a + b == a;
    } else {
      var n := |b| - 1;
      assert (a + b)[..|a + b| - 1] == a + b[..n];
      assert (a + b)[|a + b| - 1] == b[n];
      ParticipantIdsConcat(a, b[..n]);
    }
  }

  /** One connected user contributes its id exactly when the id is not empty. */
  lemma ParticipantIdsSingle(u: User)
    ensures ParticipantIds([u]) == if u.userId != "" then [u.userId] else []
  {
    assert [u][..0] == [];
  }

  /** The nondeterministic inputs one frame consumes. */
  datatype Env = Env(
    now: int,             // DateTime.Now
    userGuid: string,     // Guid.NewGuid() in SaveUserToDatabase
    creatorGuid: string,  // Guid.NewGuid() in HandleChatCreation
    messageGuid: string,  // Guid.NewGuid() in SaveMessageAsync
    ivs: nat -> Iv)       // Aes.GenerateIV in SaveMessageAsync

  /** The users, chats and memberships tables and the connected list, as values. */
  datatype Stage = Stage(users: seq<User>, chats: seq<Chat>, userChats: seq<UserChat>, connected: seq<User>)

  /**
   * Lines 221-282: the chat, the creator's user row, the creator's membership and the
   * connected creator. A creator whose fresh Guid is taken adds only the chat.
   */
  function CreationStage(s: Stage, chatId: string, creatorUsername: string, creatorGuid: string, now: int): Stage {
    var chats := s.chats + (if ChatExists(s.chats, chatId) then [] else [Chat(chatId, CreatedChatName(chatId))]);
    var users := RegisteredUsers(s.users, creatorUsername, creatorGuid);
    match RegisteredId(s.users, creatorUsername, creatorGuid)
    case None => Stage(users, chats, s.userChats, s.connected)
    case Some(creatorId) =>
      var userChats := s.userChats + (if IsMember(s.userChats, creatorId, chatId) then [] else [UserChat(creatorId, chatId, now)]);
      match UserNamed(users, creatorUsername)
      case None => Stage(users, chats, userChats, s.connected)
      case Some(i) =>
        Stage(users, chats, userChats,
              s.connected + (if UserNamed(s.connected, creatorUsername).Some? then [] else [users[i]]))
  }

  /** Lines 125-132: a missing chat is added as "Новый чат", with a membership for every user. */
  function FrameChatStage(s: Stage, chatId: string, now: int): Stage {
    if ChatExists(s.chats, chatId) then s
    else s.(chats := s.chats + [Chat(chatId, NewChatName)],
             userChats := s.userChats + NewChatMemberships(s.users, chatId, s.userChats, now))
  }

  /** Lines 113-132: a System frame announcing a chat creates it, then the routed frame's chat is ensured. */
  function PreparedStage(s: Stage, frame: Message, env: Env): Stage {
    var created :=
      if frame.msgType == MessageType.System && Contains(frame.content, CreationMarker)
      then CreationStage(s, frame.chatId, frame.sender, env.creatorGuid, env.now)
      else s;
    FrameChatStage(created, Routed(frame).chatId, env.now)
  }

  /** Lines 354-374: the inner loop, over the chats for one user. */
  method CollectUserMemberships(user: User, chats: seq<Chat>, saved: seq<UserChat>, now: int)
    returns (found: seq<UserChat>)
    ensures found == UserMemberships(user, chats, saved, now)
  {
    found := [];
    for j := 0 to |chats|
      invariant found == UserMemberships(user, chats[..j], saved, now)
    {
      assert chats[..j + 1][..j] == chats[..j];
      var chat := chats[j];
      if user.userId != "" && chat.chatId != "" {
        var existingUserChat := FirstMembership(saved, user.userId, chat.chatId);
        if existingUserChat.None? {
          found := found + [UserChat(user.userId, chat.chatId, now)];
        }
      }
    }
    assert chats[..|chats|] == chats;
  }

  /** Lines 352-375: the outer loop, user by user. */
  method CollectMissingMemberships(users: seq<User>, chats: seq<Chat>, saved: seq<UserChat>, now: int)
    returns (pending: seq<UserChat>)
    ensures pending == MissingMemberships(users, chats, saved, now)
  {
    pending := [];
    for i := 0 to |users|
      invariant pending == MissingMemberships(users[..i], chats, saved, now)
    {
      assert users[..i + 1][..i] == users[..i];
      var found := CollectUserMemberships(users[i], chats, saved, now);
      pending := pending + found;
    }
    assert users[..|users|] == users;
  }

  /** Lines 427-447: the loop over the users for one new chat. */
  method CollectNewChatMemberships(users: seq<User>, chatId: string, saved: seq<UserChat>, now: int)
    returns (pending: seq<UserChat>)
    ensures pending == NewChatMemberships(users, chatId, saved, now)
  {
    pending := [];
    for i := 0 to |users|
      invariant pending == NewChatMemberships(users[..i], chatId, saved, now)
    {
      assert users[..i + 1][..i] == users[..i];
      var user := users[i];
      if user.userId != "" {
        var existingUserChat := FirstMembership(saved, user.userId, chatId);
        if existingUserChat.None? {
          pending := pending + [UserChat(user.userId, chatId, now)];
        }
      }
    }
    assert users[..|users|] == users;
  }

  class Server {
    /** `_dbContext` */
    const db: ChatDb
    /** `_messageService`, working on the same context */
    const messageService: MessageService
    /** `_messageHistory` */
    var messageHistory: seq<Message>
    /** `_connectedUsers` */
    var connectedUsers: seq<User>

    /**
     * The database constraints, plus the names kept unique by the lookups before every
     * insert of a user and of a connected user.
     */
    ghost predicate Valid()
      reads this, db
    {
      && messageService.db == db
      && db.Valid()
      && UniqueUsernames(db.users)
      && UniqueUsernames(connectedUsers)
    }

    /** Lines 29-31: the static fields once `Main` has built the services. */
    constructor (context: ChatDb, service: MessageService)
      requires service.db == context && context.Valid() && UniqueUsernames(context.users)
      ensures db == context && messageService == service
      ensures messageHistory == [] && connectedUsers == []
      ensures Valid()
    {
      db := context;
      messageService := service;
      messageHistory := [];
      connectedUsers := [];
    }

    /** Lines 83-96: the connected list becomes the `Users` table. */
    method LoadConnectedUsersFromDatabase()
      requires Valid()
      modifies this
      ensures Valid()
      ensures connectedUsers == db.users
      ensures messageHistory == old(messageHistory)
    {
      connectedUsers := db.users;
    }

    /** Lines 314-342: the stored user's id, or the id of a newly inserted user. */
    method SaveUserToDatabase(username: string, newGuid: string) returns (userId: Option<string>)
      requires Valid()
      modifies db
      ensures Valid()
      ensures userId == RegisteredId(old(db.users), username, newGuid)
      ensures db.users == RegisteredUsers(old(db.users), username, newGuid)
      ensures db.chats == old(db.chats) && db.userChats == old(db.userChats)
      ensures db.messages == old(db.messages) && db.encryptedMessages == old(db.encryptedMessages)
    {
      RegisterUserSpec(db.users, username, newGuid);
      var existingUser := UserNamed(db.users, username);
      if existingUser.None? {
        if UserExists(db.users, newGuid) {
          // the insert violates the primary key: SaveChanges throws and nothing is stored
          return None;
        }
        MembershipsKeepReferences(db.userChats, db.users, db.users + [NewUser(newGuid, username)], db.chats, db.chats);
        db.users := db.users + [NewUser(newGuid, username)];
        return Some(newGuid);
      }
      return Some(db.users[existingUser.value].userId);
    }

    /** Lines 344-387: one membership for every (user, chat) pair that lacks one. */
    method EnsureUserChatRelationships(now: int)
      requires Valid()
      modifies db
      ensures Valid()
      ensures db.userChats == old(db.userChats) + MissingMemberships(db.users, db.chats, old(db.userChats), now)
      ensures db.users == old(db.users) && db.chats == old(db.chats)
      ensures db.messages == old(db.messages) && db.encryptedMessages == old(db.encryptedMessages)
    {
      var users := db.users;
      var chats := db.chats;
      var pending := CollectMissingMemberships(users, chats, db.userChats, now);
      MissingMembershipsSpec(users, chats, db.userChats, now);
      AppendedMembershipsRefer(db.userChats, pending, users, chats);
      db.userChats := db.userChats + pending;
    }

    /**
     * Lines 416-458: when the chat is stored, one membership in it for every user with a
     * non-empty id that lacks one; otherwise nothing.
     */
    method CreateUserChatRelationshipsForNewChat(chatId: string, now: int)
      requires Valid()
      modifies db
      ensures Valid()
      ensures db.userChats == old(db.userChats) +
        (if ChatExists(db.chats, chatId) then NewChatMemberships(db.users, chatId, old(db.userChats), now) else [])
      ensures db.users == old(db.users) && db.chats == old(db.chats)
      ensures db.messages == old(db.messages) && db.encryptedMessages == old(db.encryptedMessages)
    {
      if !ChatExists(db.chats, chatId) {
        return;
      }
      var users := db.users;
      var pending := CollectNewChatMemberships(users, chatId, db.userChats, now);
      NewChatMembershipsSpec(users, chatId, db.userChats, now);
      forall k | 0 <= k < |pending| ensures ChatExists(db.chats, pending[k].chatId) {}
      AppendedMembershipsRefer(db.userChats, pending, users, db.chats);
      db.userChats := db.userChats + pending;
    }

    /**
     * Lines 460-492: connected users whose name is stored take the stored id; the others
     * are removed.
     */
    method SyncConnectedUsersWithDatabase()
      requires Valid()
      modifies this
      ensures Valid()
      ensures connectedUsers == SyncedUsers(old(connectedUsers), db.users)
      ensures messageHistory == old(messageHistory)
    {
      var usersInDb := db.users;
      var kept: seq<User> := [];
      for k := 0 to |connectedUsers|
        invariant kept == SyncedUsers(connectedUsers[..k], usersInDb)
      {
        assert connectedUsers[..k + 1][..k] == connectedUsers[..k];
        var connectedUser := connectedUsers[k];
        var userInDb := UserNamed(usersInDb, connectedUser.username);
        if userInDb.Some? {
          kept := kept + [connectedUser.(userId := usersInDb[userInDb.value].userId)];
        }
      }
      assert connectedUsers[..|connectedUsers|] == connectedUsers;
      SyncedUsersUnique(connectedUsers, usersInDb);
      connectedUsers := kept;
    }

    /** Lines 224-234 and 125-130: stores the chat unless its id is taken. */
    method AddChatIfMissing(chat: Chat)
      requires Valid()
      modifies db
      ensures Valid()
      ensures ChatExists(db.chats, chat.chatId)
      ensures db.chats == old(db.chats) + (if ChatExists(old(db.chats), chat.chatId) then [] else [chat])
      ensures db.users == old(db.users) && db.userChats == old(db.userChats)
      ensures db.messages == old(db.messages) && db.encryptedMessages == old(db.encryptedMessages)
    {
      if ChatExists(db.chats, chat.chatId) {
        return;
      }
      var chats := db.chats + [chat];
      assert chats[|db.chats|] == chat;
      forall i, j | 0 <= i < j < |chats| ensures chats[i].chatId != chats[j].chatId {
        assert chats[i] == db.chats[i];
        if j < |db.chats| { assert chats[j] == db.chats[j]; }
      }
      MembershipsKeepReferences(db.userChats, db.users, db.users, db.chats, chats);
      db.chats := chats;
    }

    /** Lines 251-263: stores the membership unless the pair is already a member. */
    method AddMembershipIfMissing(userId: string, chatId: string, now: int)
      requires Valid()
      requires UserExists(db.users, userId) && ChatExists(db.chats, chatId)
      modifies db
      ensures Valid()
      ensures IsMember(db.userChats, userId, chatId)
      ensures db.userChats == old(db.userChats) +
        (if IsMember(old(db.userChats), userId, chatId) then [] else [UserChat(userId, chatId, now)])
      ensures db.users == old(db.users) && db.chats == old(db.chats)
      ensures db.messages == old(db.messages) && db.encryptedMessages == old(db.encryptedMessages)
    {
      var existingUserChat := FirstMembership(db.userChats, userId, chatId);
      if existingUserChat.Some? {
        return;
      }
      var userChat := UserChat(userId, chatId, now);
      UniqueConcat(db.userChats, [userChat]);
      AppendedMembershipsRefer(db.userChats, [userChat], db.users, db.chats);
      db.userChats := db.userChats + [userChat];
      assert db.userChats[|db.userChats| - 1] == userChat;
    }

    /** Lines 139-150 and 266-270: adds the user unless a connected user has that name. */
    method ConnectIfAbsent(user: User)
      requires Valid()
      modifies this
      ensures Valid()
      ensures connectedUsers == old(connectedUsers) +
        (if UserNamed(old(connectedUsers), user.username).Some? then [] else [user])
      ensures UserNamed(connectedUsers, user.username) ==
        if UserNamed(old(connectedUsers), user.username).Some? then UserNamed(old(connectedUsers), user.username)
        else Some(|old(connectedUsers)|)
      ensures messageHistory == old(messageHistory)
    {
      if UserNamed(connectedUsers, user.username).Some? {
        return;
      }
      var users := connectedUsers + [user];
      forall i, j | 0 <= i < j < |users| ensures users[i].username != users[j].username {
        assert users[i] == connectedUsers[i];
        if j < |connectedUsers| { assert users[j] == connectedUsers[j]; } else { assert users[j] == user; }
      }
      UserNamedAppend(connectedUsers, user, user.username);
      connectedUsers := users;
    }

    /**
     * Lines 221-282: ensures the chat, the creator's user row and the creator's
     * membership, then adds the creator's row to the connected list unless a connected
     * user has that name. An insert of a creator whose fresh Guid is taken throws, which
     * ends the handler after the chat step.
     */
    method HandleChatCreation(chatId: string, creatorUsername: string, creatorGuid: string, now: int)
      requires Valid()
      modifies this, db
      ensures Valid()
      ensures old(db.users) <= db.users && old(db.chats) <= db.chats && old(db.userChats) <= db.userChats
      ensures db.chats == old(db.chats) + (if ChatExists(old(db.chats), chatId) then [] else [Chat(chatId, CreatedChatName(chatId))])
      ensures db.users == RegisteredUsers(old(db.users), creatorUsername, creatorGuid)
      ensures RegisteredId(old(db.users), creatorUsername, creatorGuid).None? ==>
        db.userChats == old(db.userChats) && connectedUsers == old(connectedUsers)
      ensures RegisteredId(old(db.users), creatorUsername, creatorGuid).Some? ==>
        && UserNamed(db.users, creatorUsername).Some?
        && IsMember(db.userChats, RegisteredId(old(db.users), creatorUsername, creatorGuid).value, chatId)
        && db.userChats == old(db.userChats) +
             (if IsMember(old(db.userChats), RegisteredId(old(db.users), creatorUsername, creatorGuid).value, chatId) then []
              else [UserChat(RegisteredId(old(db.users), creatorUsername, creatorGuid).value, chatId, now)])
        && connectedUsers == old(connectedUsers) +
             (if UserNamed(old(connectedUsers), creatorUsername).Some? then []
              else [db.users[UserNamed(db.users, creatorUsername).value]])
      ensures Stage(db.users, db.chats, db.userChats, connectedUsers) ==
        CreationStage(Stage(old(db.users), old(db.chats), old(db.userChats), old(connectedUsers)),
                      chatId, creatorUsername, creatorGuid, now)
      ensures db.messages == old(db.messages) && db.encryptedMessages == old(db.encryptedMessages)
      ensures messageHistory == old(messageHistory)
    {
      AddChatIfMissing(Chat(chatId, CreatedChatName(chatId)));
      RegisterUserSpec(db.users, creatorUsername, creatorGuid);
      var creatorId := RegisteredId(db.users, creatorUsername, creatorGuid);
      if creatorId.None? {
        // the insert of the creator violates the primary key: the handler stops here
        return;
      }
      var newUsers := RegisteredUsers(db.users, creatorUsername, creatorGuid);
      MembershipsKeepReferences(db.userChats, db.users, newUsers, db.chats, db.chats);
      db.users := newUsers;
      var creator := db.users[UserNamed(db.users, creatorUsername).value];
      assert UserExists(db.users, creator.userId);
      AddMembershipIfMissing(creator.userId, chatId, now);
      ConnectIfAbsent(creator);
    }

    /**
     * Lines 125-132: when the frame's chat is not stored, adds it under the name
     * "Новый чат" and gives every user a membership in it.
     */
    method EnsureFrameChat(chatId: string, now: int)
      requires Valid()
      modifies db
      ensures Valid()
      ensures old(db.chats) <= db.chats && old(db.userChats) <= db.userChats
      ensures ChatExists(db.chats, chatId)
      ensures db.chats == old(db.chats) + (if ChatExists(old(db.chats), chatId) then [] else [Chat(chatId, NewChatName)])
      ensures db.userChats == old(db.userChats) +
        (if ChatExists(old(db.chats), chatId) then [] else NewChatMemberships(db.users, chatId, old(db.userChats), now))
      ensures db.users == old(db.users)
      ensures Stage(db.users, db.chats, db.userChats, connectedUsers) ==
        FrameChatStage(Stage(old(db.users), old(db.chats), old(db.userChats), connectedUsers), chatId, now)
      ensures db.messages == old(db.messages) && db.encryptedMessages == old(db.encryptedMessages)
    {
      if ChatExists(db.chats, chatId) {
        return;
      }
      AddChatIfMissing(Chat(chatId, NewChatName));
      CreateUserChatRelationshipsForNewChat(chatId, now);
    }

    /**
     * Lines 134-166: registers the sender; on a join, adds the sender to the connected
     * list unless a connected user has that name, and returns the chats whose history is
     * then sent back (those of the connected user's memberships).
     */
    method HandleSystemFrame(frame: Message, userGuid: string) returns (replayChats: seq<string>)
      requires Valid()
      modifies this, db
      ensures Valid()
      ensures old(db.users) <= db.users
      ensures db.users == RegisteredUsers(old(db.users), frame.sender, userGuid)
      ensures db.chats == old(db.chats) && db.userChats == old(db.userChats)
      ensures db.messages == old(db.messages) && db.encryptedMessages == old(db.encryptedMessages)
      ensures connectedUsers == old(connectedUsers) +
        (if UserNamed(old(connectedUsers), frame.sender).None? && Contains(frame.content, JoinMarker)
         then [NewUser(RegisteredId(old(db.users), frame.sender, userGuid).GetOr(""), frame.sender)] else [])
      ensures !Contains(frame.content, JoinMarker) ==> replayChats == []
      ensures Contains(frame.content, JoinMarker) ==>
        && UserNamed(connectedUsers, frame.sender).Some?
        && replayChats == ChatsOfUser(db.userChats, connectedUsers[UserNamed(connectedUsers, frame.sender).value].userId)
      ensures messageHistory == old(messageHistory)
    {
      var userId := SaveUserToDatabase(frame.sender, userGuid);
      var joining := Contains(frame.content, JoinMarker);
      if joining {
        ConnectIfAbsent(NewUser(userId.GetOr(""), frame.sender));
        var user := UserNamed(connectedUsers, frame.sender);
        replayChats := ChatsOfUser(db.userChats, connectedUsers[user.value].userId);
      } else {
        replayChats := [];
      }
    }

    /**
     * Lines 169-194: syncs the connected list, then stores the frame. With no participant
     * the frame is added as it is (its id must be present and new); otherwise it goes
     * through `SaveMessageAsync` with the participants' ids. A failed save is swallowed.
     */
    method HandleTextFrame(message: Message, env: Env) returns (stored: bool)
      requires Valid()
      modifies this, db
      ensures Valid()
      ensures connectedUsers == SyncedUsers(old(connectedUsers), db.users)
      ensures db.users == old(db.users) && db.chats == old(db.chats) && db.userChats == old(db.userChats)
      ensures ParticipantIds(connectedUsers) == [] ==>
        && (stored <==> message.id.Some? && !HasMessage(old(db.messages), message.id.value))
        && db.messages == old(db.messages) + (if stored then [message] else [])
        && db.encryptedMessages == old(db.encryptedMessages)
      ensures ParticipantIds(connectedUsers) != [] ==>
        && (stored <==> !HasMessage(old(db.messages), SavedId(message, env.messageGuid)))
        && db.messages == old(db.messages) +
             (if stored then [StoredCopy(message, SavedId(message, env.messageGuid))] else [])
        && db.encryptedMessages == old(db.encryptedMessages) +
             (if stored then EncryptionRows(messageService.encryption.userKeys, SavedId(message, env.messageGuid),
                                            message.content, ParticipantIds(connectedUsers), env.ivs, env.now)
              else [])
      ensures messageHistory == old(messageHistory)
    {
      SyncConnectedUsersWithDatabase();
      var participantIds := ParticipantIds(connectedUsers);
      if participantIds == [] {
        if message.id.None? || HasMessage(db.messages, message.id.value) {
          // a missing or repeated key makes SaveChanges throw; the handler logs it
          return false;
        }
        var messages := db.messages + [message];
        forall i, j | 0 <= i < j < |messages| ensures messages[i].id != messages[j].id {
          assert messages[i] == db.messages[i];
          if j < |db.messages| { assert messages[j] == db.messages[j]; }
        }
        db.messages := messages;
        return true;
      }
      stored := messageService.SaveMessageAsync(message, participantIds, env.messageGuid, env.ivs, env.now);
    }

    /**
     * Lines 113-132: a System frame announcing a chat creates it first (under the raw
     * chat id); then the chat of the frame, with its id defaulted, is ensured.
     */
    method PrepareFrame(frame: Message, env: Env)
      requires Valid()
      modifies this, db
      ensures Valid()
      ensures Stage(db.users, db.chats, db.userChats, connectedUsers) ==
        PreparedStage(Stage(old(db.users), old(db.chats), old(db.userChats), old(connectedUsers)), frame, env)
      ensures ChatExists(db.chats, Routed(frame).chatId)
      ensures db.messages == old(db.messages) && db.encryptedMessages == old(db.encryptedMessages)
      ensures messageHistory == old(messageHistory)
    {
      if frame.msgType == MessageType.System && Contains(frame.content, CreationMarker) {
        HandleChatCreation(frame.chatId, frame.sender, env.creatorGuid, env.now);
      }
      ghost var created := Stage(db.users, db.chats, db.userChats, connectedUsers);
      EnsureFrameChat(Routed(frame).chatId, env.now);
      assert Stage(db.users, db.chats, db.userChats, connectedUsers) == FrameChatStage(created, Routed(frame).chatId, env.now);
    }

    /**
     * Lines 134-194 for a routed frame: System frames register their sender and may join,
     * Text frames sync the connected list and are stored, other frames change nothing.
     */
    method DispatchFrame(message: Message, env: Env) returns (replayChats: seq<string>)
      requires Valid()
      modifies this, db
      ensures Valid()
      ensures db.chats == old(db.chats) && messageHistory == old(messageHistory)
      ensures message.msgType == MessageType.System ==>
        && db.users == RegisteredUsers(old(db.users), message.sender, env.userGuid)
        && db.userChats == old(db.userChats)
        && db.messages == old(db.messages) && db.encryptedMessages == old(db.encryptedMessages)
        && connectedUsers == old(connectedUsers) +
             (if UserNamed(old(connectedUsers), message.sender).None? && Contains(message.content, JoinMarker)
              then [NewUser(RegisteredId(old(db.users), message.sender, env.userGuid).GetOr(""), message.sender)] else [])
        && (!Contains(message.content, JoinMarker) ==> replayChats == [])
        && (Contains(message.content, JoinMarker) ==>
              && UserNamed(connectedUsers, message.sender).Some?
              && replayChats == ChatsOfUser(db.userChats, connectedUsers[UserNamed(connectedUsers, message.sender).value].userId))
      ensures message.msgType == Text ==>
        && db.users == old(db.users) && db.userChats == old(db.userChats)
        && connectedUsers == SyncedUsers(old(connectedUsers), db.users)
        && replayChats == []
        && (ParticipantIds(connectedUsers) == [] ==>
              && db.messages == old(db.messages) +
                   (if message.id.Some? && !HasMessage(old(db.messages), message.id.value) then [message] else [])
              && db.encryptedMessages == old(db.encryptedMessages))
        && (ParticipantIds(connectedUsers) != [] ==>
              && db.messages == old(db.messages) +
                   (if HasMessage(old(db.messages), SavedId(message, env.messageGuid)) then []
                    else [StoredCopy(message, SavedId(message, env.messageGuid))])
              && db.encryptedMessages == old(db.encryptedMessages) +
                   (if HasMessage(old(db.messages), SavedId(message, env.messageGuid)) then []
                    else EncryptionRows(messageService.encryption.userKeys, SavedId(message, env.messageGuid),
                                        message.content, ParticipantIds(connectedUsers), env.ivs, env.now)))
      ensures message.msgType != MessageType.System && message.msgType != Text ==>
        && db.users == old(db.users) && db.userChats == old(db.userChats)
        && connectedUsers == old(connectedUsers) && replayChats == []
        && db.messages == old(db.messages) && db.encryptedMessages == old(db.encryptedMessages)
    {
      replayChats := [];
      if message.msgType == MessageType.System {
        replayChats := HandleSystemFrame(message, env.userGuid);
      } else if message.msgType == Text {
        var _ := HandleTextFrame(message, env);
      }
    }

    /**
     * Lines 113-199 for one received frame: `PrepareFrame` gives the `prepared` stage,
     * `DispatchFrame` handles the routed frame from there, and every frame is appended to
     * the history. Returns the chats whose history a join sends back.
     */
    method HandleFrame(frame: Message, env: Env) returns (replayChats: seq<string>, ghost prepared: Stage)
      requires Valid()
      modifies this, db
      ensures Valid()
      ensures prepared == PreparedStage(Stage(old(db.users), old(db.chats), old(db.userChats), old(connectedUsers)), frame, env)
      ensures messageHistory == old(messageHistory) + [Routed(frame)]
      ensures ChatExists(db.chats, Routed(frame).chatId)
      ensures frame.msgType == MessageType.System ==>
        && db.users == RegisteredUsers(prepared.users, frame.sender, env.userGuid)
        && db.chats == prepared.chats && db.userChats == prepared.userChats
        && db.messages == old(db.messages) && db.encryptedMessages == old(db.encryptedMessages)
        && connectedUsers == prepared.connected +
             (if UserNamed(prepared.connected, frame.sender).None? && Contains(frame.content, JoinMarker)
              then [NewUser(RegisteredId(prepared.users, frame.sender, env.userGuid).GetOr(""), frame.sender)] else [])
        && (!Contains(frame.content, JoinMarker) ==> replayChats == [])
        && (Contains(frame.content, JoinMarker) ==>
              && UserNamed(connectedUsers, frame.sender).Some?
              && replayChats == ChatsOfUser(db.userChats, connectedUsers[UserNamed(connectedUsers, frame.sender).value].userId))
      ensures frame.msgType == Text ==>
        && db.users == prepared.users && db.chats == prepared.chats && db.userChats == prepared.userChats
        && connectedUsers == SyncedUsers(prepared.connected, db.users)
        && replayChats == []
        && (ParticipantIds(connectedUsers) == [] ==>
              && db.messages == old(db.messages) +
                   (if frame.id.Some? && !HasMessage(old(db.messages), frame.id.value) then [Routed(frame)] else [])
              && db.encryptedMessages == old(db.encryptedMessages))
        && (ParticipantIds(connectedUsers) != [] ==>
              && db.messages == old(db.messages) +
                   (if HasMessage(old(db.messages), SavedId(frame, env.messageGuid)) then []
                    else [StoredCopy(Routed(frame), SavedId(frame, env.messageGuid))])
              && db.encryptedMessages == old(db.encryptedMessages) +
                   (if HasMessage(old(db.messages), SavedId(frame, env.messageGuid)) then []
                    else EncryptionRows(messageService.encryption.userKeys, SavedId(frame, env.messageGuid),
                                        frame.content, ParticipantIds(connectedUsers), env.ivs, env.now)))
      ensures frame.msgType != MessageType.System && frame.msgType != Text ==>
        && db.users == prepared.users && db.chats == prepared.chats && db.userChats == prepared.userChats
        && connectedUsers == prepared.connected && replayChats == []
        && db.messages == old(db.messages) && db.encryptedMessages == old(db.encryptedMessages)
    {
      PrepareFrame(frame, env);
      prepared := Stage(db.users, db.chats, db.userChats, connectedUsers);
      var message := Routed(frame);
      assert message.sender == frame.sender && message.content == frame.content;
      assert message.id == frame.id && message.msgType == frame.msgType;
      replayChats := DispatchFrame(message, env);
      messageHistory := messageHistory + [message];
    }
  }

  /** `FirstOrDefault(uc => uc.UserId == userId && uc.ChatId == chatId)` as an index. */
  function FirstMembership(userChats: seq<UserChat>, userId: string, chatId: string): (r: Option<nat>)
    ensures r.None? <==> !IsMember(userChats, userId, chatId)
    ensures r.Some? ==> r.value < |userChats| && userChats[r.value].userId == userId && userChats[r.value].chatId == chatId
  {
    var r := FirstIndex(userChats, (uc: UserChat) => uc.userId == userId && uc.chatId == chatId);
    assert IsMember(userChats, userId, chatId) ==> r.Some? by {
      if IsMember(userChats, userId, chatId) {
        var i :| 0 <= i < |userChats| && userChats[i].userId == userId && userChats[i].chatId == chatId;
      }
    }
    r
  }

  /** Adding users or chats keeps every membership's references. */
  lemma MembershipsKeepReferences(userChats: seq<UserChat>, users: seq<User>, users': seq<User>,
                                  chats: seq<Chat>, chats': seq<Chat>)
    requires MembershipsReferToRows(userChats, users, chats)
    requires users <= users' && chats <= chats'
    ensures MembershipsReferToRows(userChats, users', chats')
  {
    forall k | 0 <= k < |userChats| ensures UserExists(users', userChats[k].userId) && ChatExists(chats', userChats[k].chatId) {
      var i :| 0 <= i < |users| && users[i].userId == userChats[k].userId;
      assert users'[i] == users[i];
      var j :| 0 <= j < |chats| && chats[j].chatId == userChats[k].chatId;
      assert chats'[j] == chats[j];
    }
  }

  /** Appending memberships that name stored rows keeps the foreign keys. */
  lemma AppendedMembershipsRefer(saved: seq<UserChat>, rows: seq<UserChat>, users: seq<User>, chats: seq<Chat>)
    requires MembershipsReferToRows(saved, users, chats)
    requires forall k :: 0 <= k < |rows| ==> UserExists(users, rows[k].userId) && ChatExists(chats, rows[k].chatId)
    ensures MembershipsReferToRows(saved + rows, users, chats)
  {
    forall k | 0 <= k < |saved + rows|
      ensures UserExists(users, (saved + rows)[k].userId) && ChatExists(chats, (saved + rows)[k].chatId)
    {
      if k < |saved| { assert (saved + rows)[k] == saved[k]; } else { assert (saved + rows)[k] == rows[k - |saved|]; }
    }
  }
}
