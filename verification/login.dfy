/**
 * The client's login validator (LoginViewModel.cs): a name is accepted when it is not
 * blank and is at least two UTF-16 code units long before trimming; the user then gets
 * the trimmed name, a fresh Guid as id, and the online status.
 */
module Login {
  import opened Common
  import opened Strings
  import opened Models

  /** Lines 13-21: the two guards of `Login`, in order. */
  predicate LoginAccepted(username: string) {
    !IsNullOrWhiteSpace(username) && Utf16Length(username) >= 2
  }

  class LoginViewModel {
    /** `CurrentUser`; null until a login succeeds */
    var currentUser: Option<User>
    /** `Username`, bound to the text box */
    var username: string

    /** Line 9: the name starts empty and no user is logged in. */
    constructor ()
      ensures currentUser == None && username == ""
    {
      currentUser := None;
      username := "";
    }

    /**
     * Lines 11-32: on success the current user becomes the trimmed name with the fresh
     * id, online; on failure nothing changes.
     */
    method Login(newGuid: string) returns (ok: bool)
      modifies this
      ensures ok <==> LoginAccepted(username)
      ensures ok ==> currentUser == Some(User(newGuid, Trim(username), true, OnlineStatus))
      ensures !ok ==> currentUser == old(currentUser)
      ensures username == old(username)
    {
      if IsNullOrWhiteSpace(username) {
        return false;
      }
      if Utf16Length(username) < 2 {
        return false;
      }
      currentUser := Some(User(newGuid, Trim(username), true, OnlineStatus));
      return true;
    }
  }

  /** An accepted name never trims to the empty name. */
  lemma AcceptedNameNotBlank(username: string)
    requires LoginAccepted(username)
    ensures Trim(username) != []
  {
    WhiteSpaceIffTrimEmpty(username);
  }

  /**
   * The length is checked before trimming: " a" passes both guards and logs in as "a",
   * a one-letter name.
   */
  lemma PaddedOneLetterAccepted()
    ensures LoginAccepted(" a") && Trim(" a") == "a"
  {
    assert !IsWhiteSpace(" a"[1]);
    assert Utf16Length(" a") == 1 + Utf16Length("a");
    assert " a"[1..] == "a";
    TrimLeadingSpace("a");
    assert Trim("a") == "a" by {
      assert TrimStart("a") == "a";
      assert TrimEnd("a") == "a";
    }
  }

  /** A single character of the Basic Multilingual Plane is rejected. */
  lemma OneBmpCharRejected(username: string)
    requires |username| == 1 && username[0] as int <= 0xFFFF
    ensures !LoginAccepted(username)
  {
    assert username[1..] == [];
  }

  /**
   * A single character outside the Basic Multilingual Plane is two UTF-16 code units, so
   * a one-emoji name is accepted.
   */
  lemma OneAstralCharAccepted(c: char)
    requires c as int > 0xFFFF
    ensures LoginAccepted([c])
  {
    assert [c][1..] == [];
    assert !IsWhiteSpace([c][0]);
  }
}
