/**
 * The settings page (`app/settings/page.tsx`): notification switches, a language and
 * an auto-save flag, loaded from and saved to the browser's storage under
 * `user_settings` together with the theme. The loaded values are whatever JSON the
 * stored text holds, so they are kept as JSON values.
 */
module SettingsPage {
  import opened Wrappers
  import JsValue
  import Browser

  const USER_SETTINGS: string := "user_settings"

  const NOTIFICATION_KEYS: set<string> := {"uploadComplete", "modelShared", "systemUpdates"}

  /** The notification flags before anything is loaded. */
  const DEFAULT_NOTIFICATIONS: JsValue.Json := JsValue.JObj(map[
    "uploadComplete" := JsValue.JBool(true),
    "modelShared" := JsValue.JBool(true),
    "systemUpdates" := JsValue.JBool(false)
  ])

  datatype Settings = Settings(notifications: JsValue.Json, language: JsValue.Json, autoSave: JsValue.Json)

  const DEFAULT_SETTINGS: Settings := Settings(DEFAULT_NOTIFICATIONS, JsValue.JStr("en"), JsValue.JBool(true))

  /** The body of the load effect on a parsed value: `parsed.notifications || defaults`,
      `parsed.language || "en"`, and `autoSave` taken whenever it is present (even `false`
      or `null`). Reading a field of `null` throws, which is `None` here. */
  function LoadSettings(parsed: JsValue.Json): (s: Option<Settings>)
    ensures s.None? <==> parsed.JNull?
  {
    if parsed.JNull? then None
    else
      var autoSave := JsValue.Property(parsed, "autoSave");
      Some(Settings(
        JsValue.Or(JsValue.Property(parsed, "notifications"), DEFAULT_NOTIFICATIONS),
        JsValue.Or(JsValue.Property(parsed, "language"), JsValue.JStr("en")),
        if autoSave.Some? then autoSave.value else JsValue.JBool(true)))
  }

  /** A stored notifications value replaces the defaults whole (no per-flag merge) and a
      missing or falsy one keeps them; language falls back to "en" when missing or falsy;
      a stored `false` for auto-save is kept and only a missing one becomes `true`. */
  lemma LoadDefaults(parsed: JsValue.Json)
    requires parsed.JObj?
    ensures var s := LoadSettings(parsed).value; var f := parsed.fields;
      && ("notifications" in f && JsValue.Truthy(f["notifications"]) ==> s.notifications == f["notifications"])
      && (!("notifications" in f && JsValue.Truthy(f["notifications"])) ==> s.notifications == DEFAULT_NOTIFICATIONS)
      && ("language" in f && JsValue.Truthy(f["language"]) ==> s.language == f["language"])
      && (!("language" in f && JsValue.Truthy(f["language"])) ==> s.language == JsValue.JStr("en"))
      && ("autoSave" in f ==> s.autoSave == f["autoSave"])
      && ("autoSave" !in f ==> s.autoSave == JsValue.JBool(true))
  {
  }

  /** The record `saveSettings` stringifies. `JSON.stringify` drops a property whose
      value is `undefined`, so before the theme is known the record has three keys. */
  function SettingsObject(s: Settings, theme: Option<string>): (j: JsValue.Json)
    ensures j.JObj?
    ensures theme.Some? ==> j.fields.Keys == {"notifications", "language", "autoSave", "theme"}
    ensures theme.None? ==> j.fields.Keys == {"notifications", "language", "autoSave"}
  {
    var base := map["notifications" := s.notifications, "language" := s.language, "autoSave" := s.autoSave];
    if theme.Some? then JsValue.JObj(base["theme" := JsValue.JStr(theme.value)]) else JsValue.JObj(base)
  }

  /** Saving and loading again gives back the same settings, as long as the notifications
      and the language are truthy (an empty language comes back as "en"). */
  lemma SaveLoadRoundTrip(s: Settings, theme: Option<string>)
    requires JsValue.Truthy(s.notifications) && JsValue.Truthy(s.language)
    ensures LoadSettings(SettingsObject(s, theme)) == Some(s)
  {
  }

  /** One switch's `onCheckedChange`: `{ ...notifications, [key]: checked }`. */
  function Toggled(notifications: JsValue.Json, key: string, checked: bool): (n: JsValue.Json)
    ensures n.JObj? && key in n.fields && n.fields[key] == JsValue.JBool(checked)
    ensures forall k :: k in JsValue.Spread(notifications) && k != key ==>
      k in n.fields && n.fields[k] == JsValue.Spread(notifications)[k]
    ensures n.fields.Keys == JsValue.Spread(notifications).Keys + {key}
  {
    JsValue.JObj(JsValue.Spread(notifications)[key := JsValue.JBool(checked)])
  }

  /** Toggling a switch twice to the same value is the same as toggling it once, and
      toggling two different switches commutes. */
  lemma ToggleLaws(n: JsValue.Json, a: string, b: string, x: bool, y: bool)
    ensures Toggled(Toggled(n, a, x), a, y) == Toggled(n, a, y)
    ensures a != b ==> Toggled(Toggled(n, a, x), b, y) == Toggled(Toggled(n, b, y), a, x)
  {
    var m := JsValue.Spread(n);
    var withA := m[a := JsValue.JBool(x)];
    var withB := m[b := JsValue.JBool(y)];
    SpreadOfObject(withA);
    SpreadOfObject(withB);
    assert Toggled(n, a, x) == JsValue.JObj(withA);
    assert Toggled(Toggled(n, a, x), a, y) == JsValue.JObj(withA[a := JsValue.JBool(y)]);
    UpdateTwice(m, a, JsValue.JBool(x), JsValue.JBool(y));
    if a != b {
      assert Toggled(Toggled(n, a, x), b, y) == JsValue.JObj(withA[b := JsValue.JBool(y)]);
      assert Toggled(Toggled(n, b, y), a, x) == JsValue.JObj(withB[a := JsValue.JBool(x)]);
      UpdatesCommute(m, a, b, JsValue.JBool(x), JsValue.JBool(y));
    }
  }

  lemma SpreadOfObject(f: map<string, JsValue.Json>)
    ensures JsValue.Spread(JsValue.JObj(f)) == f
  {
  }

  lemma UpdateTwice(m: map<string, JsValue.Json>, a: string, u: JsValue.Json, v: JsValue.Json)
    ensures m[a := u][a := v] == m[a := v]
  {
  }

  lemma UpdatesCommute(m: map<string, JsValue.Json>, a: string, b: string, u: JsValue.Json, v: JsValue.Json)
    requires a != b
    ensures m[a := u][b := v] == m[b := v][a := u]
  {
  }

  /** `SettingsContent`'s state. */
  class Page {
    var notifications: JsValue.Json
    var language: JsValue.Json
    var autoSave: JsValue.Json

    function Current(): Settings
      reads this
    {
      Settings(notifications, language, autoSave)
    }

    constructor ()
      ensures Current() == DEFAULT_SETTINGS
    {
      notifications := DEFAULT_NOTIFICATIONS;
      language := JsValue.JStr("en");
      autoSave := JsValue.JBool(true);
    }

    /** The mount effect, with `parsed` the outcome of `JSON.parse` on the stored text
        (`None` when it throws). Nothing is stored, the text is empty, or it does not parse
        or parses to `null`: the settings stay as they are. */
    method LoadEffect(storage: Browser.Storage, parsed: Option<JsValue.Json>)
      modifies this
      ensures Browser.HasItem(storage, USER_SETTINGS) && parsed.Some? && !parsed.value.JNull? ==>
        Current() == LoadSettings(parsed.value).value
      ensures !(Browser.HasItem(storage, USER_SETTINGS) && parsed.Some? && !parsed.value.JNull?) ==>
        Current() == old(Current())
    {
      if Browser.HasItem(storage, USER_SETTINGS) && parsed.Some? {
        var loaded := LoadSettings(parsed.value);
        if loaded.Some? {
          notifications := loaded.value.notifications;
          language := loaded.value.language;
          autoSave := loaded.value.autoSave;
        }
      }
    }

    /** One of the three notification switches. */
    method SetNotification(key: string, checked: bool)
      requires key in NOTIFICATION_KEYS
      modifies this
      ensures notifications == Toggled(old(notifications), key, checked)
      ensures language == old(language) && autoSave == old(autoSave)
    {
      notifications := Toggled(notifications, key, checked);
    }

    method SetAutoSave(checked: bool)
      modifies this
      ensures autoSave == JsValue.JBool(checked)
      ensures notifications == old(notifications) && language == old(language)
    {
      autoSave := JsValue.JBool(checked);
    }

    method SetLanguage(value: string)
      modifies this
      ensures language == JsValue.JStr(value)
      ensures notifications == old(notifications) && autoSave == old(autoSave)
    {
      language := JsValue.JStr(value);
    }

    /** `saveSettings`, given the current theme (`None` before it is known) and
        `JSON.stringify`: the stored text is the settings record and nothing else changes. */
    method SaveSettings(storage: Browser.Storage, theme: Option<string>, stringify: JsValue.Json -> string)
      returns (storageAfter: Browser.Storage)
      ensures storageAfter == storage[USER_SETTINGS := stringify(SettingsObject(Current(), theme))]
      ensures forall k :: k in storage && k != USER_SETTINGS ==> k in storageAfter && storageAfter[k] == storage[k]
    {
      storageAfter := storage[USER_SETTINGS := stringify(SettingsObject(Current(), theme))];
    }
  }
}
