/**
 * The profile page (`app/profile/page.tsx`): a form prefilled from the stored user,
 * edited field by field, and submitted to the backend; on success the stored user
 * becomes the old user overlaid with the form.
 */
module ProfilePage {
  import opened Wrappers
  import Text
  import JsValue
  import Browser
  import NavHeader

  type Form = map<string, JsValue.Json>

  const FORM_KEYS: set<string> := {"first_name", "last_name", "email", "organization", "role"}

  /** The form before any user is loaded, which also gives each field's fallback. */
  const FORM_DEFAULTS: Form := map[
    "first_name" := JsValue.JStr(""),
    "last_name" := JsValue.JStr(""),
    "email" := JsValue.JStr(""),
    "organization" := JsValue.JStr(""),
    "role" := JsValue.JStr("researcher")
  ]

  /** `{ first_name: parsed.first_name || "", ..., role: parsed.role || "researcher" }`
      (reading a field of `null` throws, so `parsed` is not `null`). */
  function FormFromUser(parsed: JsValue.Json): (form: Form)
    requires !parsed.JNull?
    ensures form.Keys == FORM_KEYS
  {
    map k | k in FORM_KEYS :: JsValue.Or(JsValue.Property(parsed, k), FORM_DEFAULTS[k])
  }

  /** A field the stored user has (and that is truthy) is copied; a missing or falsy one
      becomes "" -- or "researcher" for the role. */
  lemma FormDefaults(parsed: JsValue.Json, k: string)
    requires !parsed.JNull? && k in FORM_KEYS
    ensures var v := JsValue.Property(parsed, k);
      v.Some? && JsValue.Truthy(v.value) ==> FormFromUser(parsed)[k] == v.value
    ensures var v := JsValue.Property(parsed, k);
      !(v.Some? && JsValue.Truthy(v.value)) ==>
        FormFromUser(parsed)[k] == JsValue.JStr(if k == "role" then "researcher" else "")
  {
  }

  /** `{ ...user, ...formData }` */
  function Merged(user: JsValue.Json, form: Form): JsValue.Json
  {
    JsValue.JObj(JsValue.Spread(user) + form)
  }

  /** The form wins: every form field is taken from the form, every other field the user
      had is kept, and nothing else appears. */
  lemma MergeFormWins(user: JsValue.Json, form: Form)
    ensures Merged(user, form).fields.Keys == JsValue.Spread(user).Keys + form.Keys
    ensures forall k :: k in form ==> Merged(user, form).fields[k] == form[k]
    ensures forall k :: k in JsValue.Spread(user) && k !in form ==>
      Merged(user, form).fields[k] == JsValue.Spread(user)[k]
  {
  }

  /** After an update the avatar's initials come from the names in the form. */
  lemma InitialsAfterUpdate(user: JsValue.Json, form: Form, first: string, last: string)
    requires "first_name" in form && form["first_name"] == JsValue.JStr(first) && first != ""
    requires "last_name" in form && form["last_name"] == JsValue.JStr(last) && last != ""
    ensures NavHeader.Initials(Merged(user, form)) == Text.ToUpper([first[0], last[0]])
  {
    MergeFormWins(user, form);
  }

  /** `ProfileContent`'s state. `user` is `JNull` until a stored user is read. */
  class Page {
    var loading: bool
    var user: JsValue.Json
    var formData: Form

    constructor ()
      ensures !loading && user == JsValue.JNull && formData == FORM_DEFAULTS
    {
      loading := false;
      user := JsValue.JNull;
      formData := FORM_DEFAULTS;
    }

    /** The mount effect, with `parsed` the outcome of `JSON.parse` on the stored
        `user_data` (`None` when it throws). A parsed `null` becomes the user, then reading
        its fields throws, so the form is left as it was. */
    method LoadUser(storage: Browser.Storage, parsed: Option<JsValue.Json>)
      modifies this
      ensures Browser.HasItem(storage, Browser.USER_DATA) && parsed.Some? ==> user == parsed.value
      ensures Browser.HasItem(storage, Browser.USER_DATA) && parsed.Some? && !parsed.value.JNull? ==>
        formData == FormFromUser(parsed.value)
      ensures !(Browser.HasItem(storage, Browser.USER_DATA) && parsed.Some? && !parsed.value.JNull?) ==>
        formData == old(formData)
      ensures !(Browser.HasItem(storage, Browser.USER_DATA) && parsed.Some?) ==> user == old(user)
      ensures loading == old(loading)
    {
      if Browser.HasItem(storage, Browser.USER_DATA) && parsed.Some? {
        user := parsed.value;
        if !parsed.value.JNull? {
          formData := FormFromUser(parsed.value);
        }
      }
    }

    /** `handleChange`: the input named `name` sets that field and no other. */
    method HandleChange(name: string, value: string)
      modifies this
      ensures formData == old(formData)[name := JsValue.JStr(value)]
      ensures forall k :: k in old(formData) && k != name ==> k in formData && formData[k] == old(formData)[k]
      ensures user == old(user) && loading == old(loading)
    {
      formData := formData[name := JsValue.JStr(value)];
    }

    /** `handleRoleChange`: only the role changes. */
    method HandleRoleChange(value: string)
      modifies this
      ensures formData == old(formData)["role" := JsValue.JStr(value)]
      ensures forall k :: k in old(formData) && k != "role" ==> k in formData && formData[k] == old(formData)[k]
      ensures user == old(user) && loading == old(loading)
    {
      formData := formData["role" := JsValue.JStr(value)];
    }

    /** `handleSubmit`, given the storage, what the `PUT` returned (with the parsed body) and
        `JSON.stringify`. A 401 ends the session and goes to the sign-in page; a failed
        request, a non-2xx status or a body that does not parse change nothing; a success
        stores and shows the merged user. The loading flag is cleared on every path. */
    method HandleSubmit(storage: Browser.Storage, response: Browser.Fetched<JsValue.Json>,
                        stringify: JsValue.Json -> string)
      returns (storageAfter: Browser.Storage, route: Option<string>)
      modifies this
      ensures !loading && formData == old(formData)
      ensures response.Response? && response.status == 401 ==>
        storageAfter == Browser.ClearSession(storage) && route == Some("/auth") && user == old(user)
      ensures response.Response? && response.status != 401 && Browser.IsOk(response.status) && response.body.Some? ==>
        user == Merged(old(user), old(formData))
        && storageAfter == storage[Browser.USER_DATA := stringify(user)] && route.None?
      ensures response.NetworkError? || (response.status != 401 && (!Browser.IsOk(response.status) || response.body.None?)) ==>
        storageAfter == storage && route.None? && user == old(user)
    {
      loading := true;
      storageAfter := storage;
      route := None;
      if response.Response? && response.status == 401 {
        storageAfter := Browser.ClearSession(storage);
        route := Some("/auth");
      } else if response.Response? && Browser.IsOk(response.status) && response.body.Some? {
        var updatedUser := Merged(user, formData);
        storageAfter := storage[Browser.USER_DATA := stringify(updatedUser)];
        user := updatedUser;
      }
      loading := false;
    }
  }
}
