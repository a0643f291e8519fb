/** The settings record (`settings.json`): the global preferences beside the
    account table, the record written on first run, and the registry values
    written to make Steam log in to an account. */
module Preferences {
  import opened Common
  import opened Accounts

  /** The global preferences. The flags may be missing from a hand-edited file
      (`settings.get(...)` then yields None); `lastRefreshed` is only written by
      `get_steamapi_usersummary`. */
  datatype Prefs = Prefs(
    steamApiKey: string,
    behaviorAfterLogin: string,
    theme: string,
    displaySize: string,
    showOnStartup: Option<bool>,
    showAvatars: Option<bool>,
    useSystemtray: Option<bool>,
    lastRefreshed: Option<string>)

  /** The whole settings record: preferences and the `users` table. */
  datatype Settings = Settings(prefs: Prefs, users: Table)

  /** The record `settings_write(new=True)` writes on first run. */
  function DefaultSettings(): (s: Settings)
    ensures WellFormed(s.users) && s.users.accounts == map[]
    ensures s.prefs.steamApiKey == "" && s.prefs.lastRefreshed.None?
  {
    Settings(
      Prefs(steamApiKey := "", behaviorAfterLogin := "nothing", theme := "dark", displaySize := "medium",
            showOnStartup := Some(true), showAvatars := Some(true), useSystemtray := Some(true),
            lastRefreshed := None),
      Table(map[], []))
  }

  /** `not settings.get("show_avatars")`: a missing value counts as false. */
  function Toggled(v: Option<bool>): (on: bool)
    ensures v.None? ==> on
    ensures v.Some? ==> on == !v.value
  {
    v != Some(true)
  }

  /** Toggling a missing value turns avatars on, and toggling twice restores
      a boolean. */
  lemma ToggledTwice(b: bool)
    ensures Toggled(None) == true
    ensures Toggled(Some(Toggled(Some(b)))) == b
  {
  }

  // ---- the Steam registry ----

  const AutoLoginUser := "AutoLoginUser"
  const SkinV5 := "SkinV5"

  /** `set_autologin_account(name)`: `AutoLoginUser` becomes `name`, and when
      the account is stored `SkinV5` becomes its skin; nothing else is written. */
  function AutologinWrites(registry: map<string, string>, accounts: map<string, Account>, name: string)
    : (r: map<string, string>)
    ensures AutoLoginUser in r && r[AutoLoginUser] == name
    ensures name in accounts ==> SkinV5 in r && r[SkinV5] == accounts[name].steamSkin
    ensures name !in accounts ==> (SkinV5 in r <==> SkinV5 in registry)
    ensures name !in accounts && SkinV5 in registry ==> r[SkinV5] == registry[SkinV5]
    ensures forall k :: k != AutoLoginUser && k != SkinV5 ==> (k in r <==> k in registry)
    ensures forall k :: k in registry && k != AutoLoginUser && k != SkinV5 ==> r[k] == registry[k]
  {
    var r := registry[AutoLoginUser := name];
    if name in accounts then r[SkinV5 := accounts[name].steamSkin] else r
  }

  /** Logging in to a stored account whose skin is known writes a known skin. */
  lemma AutologinSkinKnown(registry: map<string, string>, accounts: map<string, Account>, name: string, skins: seq<string>)
    requires SkinsKnown(accounts, skins) && name in accounts
    ensures AutologinWrites(registry, accounts, name)[SkinV5] in skins
  {
  }
}
