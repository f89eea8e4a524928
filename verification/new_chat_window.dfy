/**
 * The chat-creation dialog (NewChatWindow.xaml.cs): the users offered for selection, the
 * selected names, the chat name, and the rule that decides whether the dialog accepts.
 *
 * The radio button, the name text box and the check boxes are the fields
 * `isGroupChat`, `groupNameText` and `SelectableUser.isSelected`, which the window's
 * bindings set; the message boxes shown on rejection are not part of this model.
 */
module NewChat {
  import opened Common
  import opened Strings

  /** A user offered in the dialog, with the state of its check box. */
  datatype SelectableUser = SelectableUser(username: string, isSelected: bool)

  /** Line 25: the offered names, in input order, without the current user. */
  function OtherUsers(names: seq<string>, current: string): (r: seq<string>)
    ensures forall u :: u in r <==> u in names && u != current
    ensures |r| <= |names|
  {
    if names == [] then []
    else
      var n := |names| - 1;
      assert forall u :: u in names <==> u in names[..n] || u == names[n] by {
        assert names == names[..n] + [names[n]];
      }
      OtherUsers(names[..n], current) + (if names[n] != current then [names[n]] else [])
  }

  /**
   * `OtherUsers` keeps the input order: filtering a concatenation is the concatenation of
   * the filtered parts.
   */
  lemma {:induction false} OtherUsersConcat(a: seq<string>, b: seq<string>, current: string)
    ensures OtherUsers(a + b, current) == OtherUsers(a, current) + OtherUsers(b, current)
  {
    if b == [] {
      assert a + b == a;
    } else {
      var n := |b| - 1;
      assert (a + b)[..|a + b| - 1] == a + b[..n];
      assert (a + b)[|a + b| - 1] == b[n];
      OtherUsersConcat(a, b[..n], current);
    }
  }

  /** Lines 15-18: the names of the checked users, in list order. */
  function SelectedNames(users: seq<SelectableUser>): (r: seq<string>)
    ensures |r| <= |users|
    ensures forall u :: u in r <==> exists i :: 0 <= i < |users| && users[i].isSelected && users[i].username == u
  {
    if users == [] then []
    else
      var n := |users| - 1;
      var prev := SelectedNames(users[..n]);
      assert forall u :: u in prev <==> exists i :: 0 <= i < n && users[i].isSelected && users[i].username == u by {
        forall u ensures u in prev <==> exists i :: 0 <= i < n && users[i].isSelected && users[i].username == u {
          if u in prev {
            var i :| 0 <= i < |users[..n]| && users[..n][i].isSelected && users[..n][i].username == u;
            assert users[i] == users[..n][i];
          }
          if exists i :: 0 <= i < n && users[i].isSelected && users[i].username == u {
            var i :| 0 <= i < n && users[i].isSelected && users[i].username == u;
            assert users[..n][i] == users[i];
          }
        }
      }
      prev + (if users[n].isSelected then [users[n].username] else [])
  }

  /**
   * `SelectedNames` keeps list order: the names selected in a concatenation are those of
   * its parts, one after the other, and a single entry gives its name exactly when it is
   * checked. Together they fix the list and its length.
   */
  lemma {:induction false} SelectedNamesConcat(a: seq<SelectableUser>, b: seq<SelectableUser>)
    ensures SelectedNames(a + b) == SelectedNames(a) + SelectedNames(b)
  {
    if b == [] {
      assert a + b == a;
    } else {
      var n := |b| - 1;
      assert (a + b)[..|a + b| - 1] == a + b[..n];
      assert (a + b)[|a + b| - 1] == b[n];
      SelectedNamesConcat(a, b[..n]);
    }
  }

  lemma SelectedNamesSingle(u: SelectableUser)
    ensures SelectedNames([u]) == if u.isSelected then [u.username] else []
  {
    assert [u][..0] == [];
  }

  /** Lines 45-70: the dialog's acceptance rule. */
  predicate CreationAccepted(isGroupChat: bool, chatName: string, selectedCount: nat) {
    if isGroupChat then !IsNullOrWhiteSpace(chatName) && selectedCount != 0
    else selectedCount == 1
  }

  class NewChatWindow {
    /** The current user's name, given to the constructor */
    const currentUsername: string
    /** `AvailableUsers` */
    var availableUsers: seq<SelectableUser>
    /** `IsGroupChat`: the group radio button is checked */
    var isGroupChat: bool
    /** The text of `GroupNameTextBox` */
    var groupNameText: string
    /** `DialogResult`; null while the dialog is open */
    var dialogResult: Option<bool>

    /** The current user is never offered. */
    ghost predicate Valid()
      reads this
    {
      forall i :: 0 <= i < |availableUsers| ==> availableUsers[i].username != currentUsername
    }

    /** Lines 20-41: every other user is offered, unchecked, in input order. */
    constructor (current: string, names: seq<string>)
      ensures Valid()
      ensures currentUsername == current
      ensures |availableUsers| == |OtherUsers(names, current)|
      ensures forall i :: 0 <= i < |availableUsers| ==>
        availableUsers[i] == SelectableUser(OtherUsers(names, current)[i], false)
      ensures !isGroupChat && groupNameText == "" && dialogResult == None
    {
      var offered: seq<SelectableUser> := [];
      for k := 0 to |names|
        invariant |offered| == |OtherUsers(names[..k], current)|
        invariant forall i :: 0 <= i < |offered| ==> offered[i] == SelectableUser(OtherUsers(names[..k], current)[i], false)
      {
        assert names[..k + 1][..k] == names[..k];
        if names[k] != current {
          offered := offered + [SelectableUser(names[k], false)];
        }
      }
      assert names[..|names|] == names;
      currentUsername := current;
      availableUsers := offered;
      isGroupChat := false;
      groupNameText := "";
      dialogResult := None;
      new;
      forall i | 0 <= i < |availableUsers| ensures availableUsers[i].username != currentUsername {
        assert availableUsers[i].username in OtherUsers(names, current);
      }
    }

    /** Line 13: a private chat has no name. */
    function ChatName(): (r: string)
      reads this
      ensures !isGroupChat ==> r == ""
      ensures isGroupChat ==> r == groupNameText
    {
      if isGroupChat then groupNameText else ""
    }

    /** Lines 15-18: never the current user. */
    function SelectedUsers(): (r: seq<string>)
      requires Valid()
      reads this
      ensures forall u :: u in r ==> u != currentUsername
      ensures forall u :: u in r <==>
        exists i :: 0 <= i < |availableUsers| && availableUsers[i].isSelected && availableUsers[i].username == u
    {
      SelectedNames(availableUsers)
    }

    /**
     * Lines 43-74: the dialog closes with a true result exactly when the choice passes
     * the rule; an accepted private chat names exactly one other user.
     */
    method CreateButtonClick() returns (accepted: bool)
      requires Valid()
      modifies this
      ensures Valid()
      ensures accepted <==> CreationAccepted(isGroupChat, ChatName(), |SelectedUsers()|)
      ensures accepted ==> dialogResult == Some(true)
      ensures !accepted ==> dialogResult == old(dialogResult)
      ensures accepted && !isGroupChat ==> |SelectedUsers()| == 1 && SelectedUsers()[0] != currentUsername
      ensures accepted && isGroupChat ==> |SelectedUsers()| > 0 && !IsNullOrWhiteSpace(ChatName())
      ensures availableUsers == old(availableUsers) && isGroupChat == old(isGroupChat)
      ensures groupNameText == old(groupNameText)
    {
      if isGroupChat {
        if IsNullOrWhiteSpace(ChatName()) {
          return false;
        }
        if |SelectedUsers()| == 0 {
          return false;
        }
      } else {
        if |SelectedUsers()| != 1 {
          return false;
        }
        assert SelectedUsers()[0] in SelectedUsers();
      }
      dialogResult := Some(true);
      return true;
    }

    /** Lines 76-80: cancelling closes the dialog with a false result and changes nothing else. */
    method CancelButtonClick()
      modifies this
      ensures dialogResult == Some(false)
      ensures availableUsers == old(availableUsers) && isGroupChat == old(isGroupChat)
      ensures groupNameText == old(groupNameText)
    {
      dialogResult := Some(false);
    }
  }

  /** A chat is never created with the current user as its only other participant. */
  lemma AcceptedPrivateChatIsWithAnother(w: NewChatWindow)
    requires w.Valid()
    requires !w.isGroupChat && CreationAccepted(w.isGroupChat, w.ChatName(), |w.SelectedUsers()|)
    ensures |w.SelectedUsers()| == 1 && w.SelectedUsers()[0] != w.currentUsername
  {
    assert w.SelectedUsers()[0] in w.SelectedUsers();
  }
}
