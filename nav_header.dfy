/**
 * The navigation header (`components/nav-header.tsx`): it reads the signed-in user
 * from the browser's storage, shows their initials and name, and signs them out.
 * The user is the value `JSON.parse` made of the stored `user_data` (`JNull` before
 * any user is loaded).
 */
module NavHeader {
  import opened Wrappers
  import Text
  import JsValue
  import Browser

  /** `user?.[key]` read as a string: empty when there is no user, no such field, or the
      field is not a string. */
  function NameField(user: JsValue.Json, key: string): string
  {
    if user.JObj? && key in user.fields && user.fields[key].JStr? then user.fields[key].s else ""
  }

  /** Both `first_name` and `last_name` are present and not empty. */
  predicate HasFullName(user: JsValue.Json)
  {
    NameField(user, "first_name") != "" && NameField(user, "last_name") != ""
  }

  /** `getUserInitials`: the upper-cased first letters of the first and last names when
      both are there, else the upper-cased first letter of the username, else "U". */
  function Initials(user: JsValue.Json): string
  {
    var first := NameField(user, "first_name");
    var last := NameField(user, "last_name");
    var username := NameField(user, "username");
    if first != "" && last != "" then Text.ToUpper([first[0], last[0]])
    else if username != "" then Text.ToUpper([username[0]])
    else "U"
  }

  /** The name in the menu: "first last" when both are there, otherwise the username. */
  function DisplayName(user: JsValue.Json): (name: string)
    ensures HasFullName(user) ==> |name| >= 3
  {
    if HasFullName(user) then NameField(user, "first_name") + " " + NameField(user, "last_name")
    else NameField(user, "username")
  }

  /** The initials are one or two characters already in upper case: two exactly when the
      user has both names; without a username or names the avatar shows "U". */
  lemma InitialsShape(user: JsValue.Json)
    ensures 1 <= |Initials(user)| <= 2
    ensures Text.ToUpper(Initials(user)) == Initials(user)
    ensures |Initials(user)| == 2 <==> HasFullName(user)
    ensures !HasFullName(user) && NameField(user, "username") == "" ==> Initials(user) == "U"
  {
    var r := Initials(user);
    assert forall i :: 0 <= i < |r| ==> Text.UpperChar(Text.UpperChar(r[i])) == Text.UpperChar(r[i]);
  }

  /** The initials are the first letters of the words of the display name, upper-cased. */
  lemma InitialsFollowName(user: JsValue.Json)
    ensures var name := DisplayName(user);
      HasFullName(user) ==>
        Initials(user) == Text.ToUpper([name[0], name[|NameField(user, "first_name")| + 1]])
    ensures var name := DisplayName(user);
      !HasFullName(user) && name != "" ==> Initials(user) == Text.ToUpper([name[0]])
  {
    var first := NameField(user, "first_name");
    var last := NameField(user, "last_name");
    if HasFullName(user) {
      var name := first + " " + last;
      assert name[0] == first[0];
      assert name[|first| + 1] == last[0];
    }
  }

  /** `NavHeader`'s state. */
  class Header {
    var user: JsValue.Json
    var loading: bool

    constructor ()
      ensures user == JsValue.JNull && loading
    {
      user := JsValue.JNull;
      loading := true;
    }

    /** A user is shown while `user` is truthy. */
    predicate SignedIn()
      reads this
    {
      JsValue.Truthy(user)
    }

    /** The mount effect, with `parsed` the outcome of `JSON.parse` on the stored `user_data`
        (`None` when it throws). The user is taken only when both the token and `user_data`
        are stored (and not empty) and the text parses. */
    method LoadUser(storage: Browser.Storage, parsed: Option<JsValue.Json>)
      modifies this
      ensures !loading
      ensures Browser.HasItem(storage, Browser.AUTH_TOKEN) && Browser.HasItem(storage, Browser.USER_DATA) && parsed.Some? ==>
        user == parsed.value
      ensures !(Browser.HasItem(storage, Browser.AUTH_TOKEN) && Browser.HasItem(storage, Browser.USER_DATA) && parsed.Some?) ==>
        user == old(user)
    {
      if Browser.HasItem(storage, Browser.AUTH_TOKEN) && Browser.HasItem(storage, Browser.USER_DATA) {
        if parsed.Some? {
          user := parsed.value;
        }
      }
      loading := false;
    }

    /** `handleSignOut`: whether or not the logout request fails, the token and the stored
        user are removed, the user is cleared and the page goes home. */
    method SignOut(storage: Browser.Storage, logoutFailed: bool) returns (storageAfter: Browser.Storage, route: string)
      modifies this
      ensures storageAfter == Browser.ClearSession(storage) && route == "/"
      ensures user == JsValue.JNull && !SignedIn()
      ensures loading == old(loading)
    {
      // The `try` path and the `catch` path clear the same two keys and route alike.
      storageAfter := Browser.ClearSession(storage);
      user := JsValue.JNull;
      route := "/";
    }
  }
}
