# Steam account switcher: a Dafny model of its settings and account table

The switcher keeps a list of Steam login profiles in `settings.json` and makes
Steam log in to one of them by writing the `AutoLoginUser` and `SkinV5`
registry values and restarting the client. This project models the part of
`SteamSwitcher` (steamswitcher.py) that owns that state, and the three setters
of the settings menu (gui/settings.py):

- the settings record: global preferences plus `users`, an insertion-ordered
  map from login name to an account record (`comment`, `display_order`,
  `timestamp`, `steam_skin`, `steam_uid`, `steam_user`, sometimes
  `steam_name`), the record written on first run, and the copy last written to
  disk;
- adding, renaming and deleting accounts;
- reconciling accounts with the records of `loginusers.vdf` and with player
  summaries from the Steam Web API;
- resolving accounts to avatar image paths, with a file cache;
- login gating and the registry writes of an autologin;
- the `show_avatars`, `behavior_after_login` and `display_size` setters.

Layout, one module per file:

- `common.dfy` (`Common`): `Option`, `Result`, `Outcome`, the exceptions that
  escape (`Error`), and `str(int(t))` for clock readings.
- `accounts.dfy` (`Accounts`): the account record, the ordered table, the skin
  list, and `add_account` / `delete_account` as functions on values.
- `reconcile.dfy` (`Reconcile`): the `update_steamuids` loop and the player
  summary matching of `get_steamapi_usersummary`, as functions on values.
- `avatars.dfy` (`Avatars`): the `get_steam_avatars` loop as a function on
  values.
- `preferences.dfy` (`Preferences`): the settings record, its first-run value,
  the `show_avatars` toggle and the registry values an autologin writes.
- `switcher.dfy` (`Switcher`): class `SteamSwitcher`, whose fields are the
  settings (`prefs`, `accounts`, `order`), the saved copy, the skin list and
  the registry. Its methods update them in place. Each method's `ensures` ties
  the new state to the value-level function of the old state.
- `gui_settings.dfy` (`GuiSettings`): class `SettingsMenu`, with the three
  setters acting on a `SteamSwitcher`.

The outside world is passed in as parameters:

- the `loginusers.vdf` records are a sequence of (uid, `AccountName`,
  `PersonaName`), or None when the file could not be read;
- the API response is a status code and a list of player summaries;
- the existing avatar files are a set of paths;
- the network maps each reachable avatar URL to its status code;
- the clock reading is a natural number;
- a PermissionError while stopping Steam is a flag.

Python's falsy "not given" values (None and `""`) are both modelled as `""`.
This applies to `original_login_name` and to the command-line options.

Behaviour of the code that is easy to misread:

- `update_steamuids` rejects only a uid that is all digits and not 17
  characters long, so a non-numeric uid passes. It does not roll back the
  accounts it updated before the rejected record.
- `add_account` sets `display_order` only on the added record and never
  renumbers the others. So orders can repeat (`Accounts.DisplayOrdersCanCollide`).
- `delete_account` does not remove a cached avatar file.
- `delete_account` raises KeyError for a name that is not stored. `parse`
  guards against this by calling it only for stored names.

## Model

| member | source | states |
|---|---|---|
| `Preferences.DefaultSettings` | steamswitcher.py:89-98 | the first-run record has an empty, well-formed account table, an empty API key and no `last_refreshed` |
| `Preferences.Toggled` | gui/settings.py:5 | `not settings.get("show_avatars")`: a missing value gives true, a boolean gives its negation |
| `Switcher.SteamSwitcher.constructor` | steamswitcher.py:38-47 | the settings are the stored record, or on first run the default record, which is also written; `first_run` is set exactly when nothing was stored; the skins and the default avatar path are computed |
| `Switcher.SteamSwitcher.SettingsWrite` | steamswitcher.py:99-101 | the file afterwards holds a full snapshot of the in-memory settings |
| `Accounts.GetSteamSkins` | steamswitcher.py:105-111 | the skin list is "default" followed by the directory names, in order; it is None when the skins directory is missing |
| `Accounts.NewRecord` | steamswitcher.py:238-246 | the record built by `add_account` has the given display order, a summary (`{}` when none is supplied), no `steam_name`, a non-empty timestamp, and a known skin or "default" |
| `Accounts.AddAccount` | steamswitcher.py:235-259 | fails exactly when the skin list is missing (TypeError) or a rename's original name is not stored (KeyError); otherwise the table stays well-formed and holds `login_name` |
| `Accounts.AddedRecord` | steamswitcher.py:238-246 | the stored record has `display_order` = table size before the call + 1; `comment` and `steam_uid` default to ""; a non-empty supplied timestamp is kept, otherwise the clock reading is used; the skin is the supplied one if known, otherwise "default"; there is no `steam_name` |
| `Accounts.AddKeepsOthers` | steamswitcher.py:239-255 | without a rename, `login_name` maps to the new record with `steam_user` (`{}` by default); a new name is appended to the order, an existing one keeps its place; every other entry is unchanged |
| `Accounts.Rename` | steamswitcher.py:247-255 | a rename succeeds exactly when the original name is stored; afterwards the original key is gone, the new name's record has no `steam_user` or `steam_name`, all other entries are unchanged, and the order is the old order without the original name, followed by the new name unless it was already stored (then it keeps its place) |
| `Accounts.RenameDisplayOrder` | steamswitcher.py:241-253 | on a rename to a new name the table size is unchanged and the record's `display_order` is one more than the final table size |
| `Accounts.EditKeepsIdentity` | steamswitcher.py:238-246 | re-saving an account under its own name with the fields the edit dialog sends back keeps its timestamp, uid and place in the order; it keeps its summary, or gets the empty summary `{}` when it had none (after a rename); the comment becomes the typed one, and the picked skin is stored if it is known |
| `Accounts.AddKeepsSkinsKnown` | steamswitcher.py:243 | with the skin list built by `get_steam_skins`, adding keeps every stored skin in that list |
| `Accounts.DisplayOrdersCanCollide` | steamswitcher.py:241 | display orders are not renumbered: when an account holds the order equal to the table size, deleting any other account and then adding a new one gives the new account that same order |
| `Accounts.DeleteAccount` | steamswitcher.py:261-263 | fails (KeyError) exactly when the name is not stored; otherwise exactly that key leaves the map, every other entry is unchanged, the order is the old order with the name cut out at its position, and the table stays well-formed |
| `Accounts.DeleteUndoesAdd` | steamswitcher.py:235-263 | deleting an account just added under a new name restores the table exactly |
| `Accounts.Pop` | steamswitcher.py:262 | `pop` of a stored key keeps the table well-formed and shrinks it by one |
| `Accounts.Put` | steamswitcher.py:255 | item assignment maps the key to the record, keeps the order of a stored key and appends a new key at the end, and keeps the table well-formed |
| `Accounts.Without` | steamswitcher.py:262 | removing a key from the order keeps exactly the other names and changes nothing when the key is absent |
| `Accounts.WithoutAt` | steamswitcher.py:262 | in an order without repeats, removing the name at position i gives the names before i followed by the names after i |
| `Accounts.WithoutStored` | steamswitcher.py:262 | removing a stored name from an order without repeats cuts it out at the position where it stands |
| `Accounts.PopPut` | steamswitcher.py:255-262 | popping a name just assigned under a new key gives back the original table, map and order |
| `Switcher.SteamSwitcher.AddAccount` | steamswitcher.py:235-259 | the in-memory table becomes the table `Accounts.AddAccount` gives and is written; on an error nothing changes and nothing is written |
| `Switcher.SteamSwitcher.DeleteAccount` | steamswitcher.py:261-263 | the in-memory table becomes the table `Accounts.DeleteAccount` gives and is written; an absent name raises and changes nothing |
| `Reconcile.FirstRejected` | steamswitcher.py:279-281 | gives the first record whose uid is all digits and not 17 long, or None when there is none |
| `Reconcile.RejectedUid` | steamswitcher.py:280 | a uid is rejected only when it is non-empty and not 17 long; a 17-character or empty uid, or one with any non-digit, is never rejected |
| `Reconcile.ApplyLoginUser` | steamswitcher.py:282-284 | one record keeps the stored names; the account it names (when stored and not `no_save`) takes the record's uid and persona name and keeps its summary and skin; every other account is unchanged |
| `Reconcile.ApplyLoginUsers` | steamswitcher.py:279-284 | applying the records in order never adds or removes a stored name |
| `Switcher.SteamSwitcher.ApplyLoginRecord` | steamswitcher.py:282-284 | the in-memory accounts become what `Reconcile.ApplyLoginUser` gives |
| `Reconcile.LastRecordFor` | steamswitcher.py:279-284 | gives the last loginusers record naming an account, or None exactly when no record names it |
| `Reconcile.ApplyLoginUsersAt` | steamswitcher.py:279-284 | the stored names are unchanged; each stored account takes `steam_uid` and `steam_name` from the last record naming it; an account no record names is untouched |
| `Reconcile.NoSaveChangesNothing` | steamswitcher.py:282 | with `no_save` no account changes |
| `Reconcile.ApplyLoginUsersKeepsSkins` | steamswitcher.py:282-284 | reconciling keeps every stored skin known |
| `Switcher.SteamSwitcher.UpdateSteamUids` | steamswitcher.py:276-286 | fails when loginusers could not be read; at the first rejected uid it raises with the earlier records already applied and nothing written; otherwise all records are applied and the settings are written unless `no_save` |
| `Reconcile.RequestedUids` | steamswitcher.py:192-196 | without `get_missing` one uid per account is requested, otherwise at most that many |
| `Reconcile.NeedsSummary` | steamswitcher.py:194 | an account needs a summary exactly when `steam_user` is missing or empty |
| `Reconcile.RequestedUidsExactly` | steamswitcher.py:194-196 | a uid is requested exactly when some account has it, and with `get_missing` that account's `steam_user` is missing or empty |
| `Reconcile.FirstWithUid` | steamswitcher.py:202-203 | gives the first account in table order with the given `steam_uid`, or None when no account has it |
| `Reconcile.AttachPlayer` | steamswitcher.py:201-206 | a player fails exactly when the table is empty (IndexError), it lacks `steamid` (KeyError) or no account has that uid (IndexError); otherwise the first matching account's record is the old one with `steam_user` = the player and `steam_name` = its `personaname`, and nothing else changes |
| `Reconcile.AttachPlayers` | steamswitcher.py:201-206 | attaching the returned players in order keeps the table well-formed and its order unchanged |
| `Reconcile.AttachPlayersFailureSticks` | steamswitcher.py:201-206 | once a player fails, the loop ends with that error |
| `Reconcile.AttachPlayersKeepsSkins` | steamswitcher.py:201-206 | attaching summaries keeps every stored skin known |
| `Switcher.SteamSwitcher.AttachReturnedPlayers` | steamswitcher.py:201-206 | the loop leaves the table `Reconcile.AttachPlayers` gives; on a failing player, the players before it stay attached |
| `Switcher.SteamSwitcher.AttachOne` | steamswitcher.py:202-206 | one player changes the table exactly as `Reconcile.AttachPlayer` says; on its error the table is untouched |
| `Switcher.SteamSwitcher.GetSteamApiUserSummary` | steamswitcher.py:188-209 | with no API key it raises before building a request and changes nothing; otherwise it requests the given uids or the selected ones and sets `last_refreshed`; a failed or empty response raises without touching accounts; otherwise players are attached and the settings written, or the first failure raises with nothing written |
| `Common.Decimal` | steamswitcher.py:242 | the rendering of a clock reading is a non-empty string of digits |
| `Common.DecimalRoundTrip` | steamswitcher.py:242 | reading the rendered clock value back gives the same number |
| `Avatars.LastSegment` | steamswitcher.py:294 | the file name is the suffix of the URL after its last '/', or the whole URL, and contains no '/' |
| `Avatars.ResolveOne` | steamswitcher.py:290-313 | one iteration never removes files, does nothing once the loop has raised, raises only at a stored account with a summary, and leaves every other name's entry alone |
| `Avatars.WithPath` | steamswitcher.py:296-305 | `r[name] = path` sets that entry and keeps the other entries and the files |
| `Avatars.Resolve` | steamswitcher.py:288-313 | the loop from an empty result never removes files and gives paths only to requested names |
| `Avatars.ResolveAll` | steamswitcher.py:290-313 | the loop never removes files, and once failed it stays failed |
| `Avatars.ResolveFailureSticks` | steamswitcher.py:290-313 | once a name makes the loop raise, the names after it are not processed |
| `Avatars.ResolveKeys` | steamswitcher.py:288-313 | every key of the result is a requested name; an unknown name maps to the default avatar; a stored account without `steam_user` is omitted |
| `Avatars.ResolveStored` | steamswitcher.py:292-308 | a stored account with a summary resolves to `avatars/` + the last URL segment (or `avatar.png` without a URL), and that file exists afterwards, or else to the default avatar; it gets an entry unless the loop raised; an existing file is returned as is; a URL answering 200 gives that path; the default avatar comes only when the URL answered another status or the own path is the default |
| `Avatars.ResolveOneSelf` | steamswitcher.py:292-308 | one iteration on a stored account with a summary keeps the facts `Avatars.ResolveStored` states about it: an entry unless raised, its own existing path or the default avatar, the existing file as is, the downloaded path after a 200, and the default only after another status |
| `Avatars.AllCachedNoDownload` | steamswitcher.py:296-298 | when every requested account's avatar file exists, nothing is downloaded and nothing fails |
| `Avatars.ResolveFailure` | steamswitcher.py:300 | the loop raises only at a stored account whose file is missing and whose URL is absent or unreachable |
| `Switcher.SteamSwitcher.GetSteamAvatars` | steamswitcher.py:288-313 | the result and the files on disk afterwards are those of `Avatars.Resolve`; it raises exactly when that loop fails, and downloads made before the failure stay on disk |
| `Preferences.AutologinWrites` | steamswitcher.py:211-225 | `AutoLoginUser` becomes the name; `SkinV5` becomes the account's skin when the name is stored and is left alone otherwise; no other registry value changes |
| `Preferences.AutologinSkinKnown` | steamswitcher.py:216-218 | logging in to a stored account whose skin is known writes a known skin |
| `Switcher.SteamSwitcher.SetAutologinAccount` | steamswitcher.py:211-225 | the registry becomes what `Preferences.AutologinWrites` gives |
| `Switcher.SteamSwitcher.LoginWith` | steamswitcher.py:113-121 | only a stored name, or any name when forced, leads to a login; a PermissionError while stopping Steam propagates with the registry untouched; otherwise the autologin values are written |
| `Switcher.SteamSwitcher.Parse` | steamswitcher.py:169-186 | `--login` logs in only to a stored name and `--force-login` to any name; `--list` yields the names in order and sets `stop`; `--delete` deletes only a stored name; a failed login stops the rest |
| `Switcher.SteamSwitcher.LoginFromArgs` | steamswitcher.py:171-176 | `--login` of a stored name wins over `--force-login`; the registry gets the autologin values of the chosen name, or is untouched when no name is chosen or stopping Steam is denied, which is the returned error |
| `Switcher.SteamSwitcher.DeleteIfStored` | steamswitcher.py:182-186 | `--delete` of a stored name makes the table what `Accounts.DeleteAccount` gives and writes it; any other name leaves the table and the file alone |
| `Preferences.ToggledTwice` | gui/settings.py:5 | a missing `show_avatars` toggles to true, and toggling twice restores a boolean |
| `GuiSettings.SettingsMenu.SetShowAvatars` | gui/settings.py:4-7 | `show_avatars` becomes the negation of its current value, with missing counted as false; nothing else changes and the written file equals the in-memory settings |
| `GuiSettings.SettingsMenu.ShowAvatarsTwice` | gui/settings.py:4-7 | choosing the action twice restores a boolean flag, and the file matches memory |
| `GuiSettings.SettingsMenu.SetAfterLoginAction` | gui/settings.py:10-12 | `behavior_after_login` becomes the item's data; nothing else changes and the written file equals the in-memory settings |
| `GuiSettings.SettingsMenu.SetSize` | gui/settings.py:15-18 | `display_size` becomes exactly `size`; no other setting or account changes and the written file equals the in-memory settings |

## Left out

- The Qt interface (main.py and everything under gui/ except the three setters in gui/settings.py). It builds widgets and wires signals.
- GuiSettings.SettingsMenu.SetShowAvatars: stops after the write. The source then calls `load_accounts()` (gui/accounts.py:48-55), which sorts the accounts, calls `get_steam_avatars` for every stored name and redraws the list. That call can download avatar files and raise; the loop is modelled on its own by `Switcher.SteamSwitcher.GetSteamAvatars`, and the redraw belongs to the Qt interface.
- GuiSettings.SettingsMenu.SetSize: stops after the write, for the same reason: its `load_accounts()` call is left out as for `SetShowAvatars`.
- main.py is an older revision that calls methods which no longer exist. It is not part of this model.
- Reading the registry and `loginusers.vdf` (`_load_registry`, `_get_windows_registry`, `_get_linux_registry`, `load_loginusers`). They go through winreg and the third-party PyVDF parser. The model receives the records, or None when loading failed.
- JSON encoding and decoding of `settings.json`. A write is a snapshot copy (`saved`). A corrupted file makes `_load_settings` return None; that case and the recursive reload after FileNotFoundError are not modelled.
- Process control in `kill_steam` and `start_steam` (PID files, `os.kill`, `subprocess.Popen`). The only effect modelled is a PermissionError that propagates from `kill_steam`. A missing process is tolerated by the source and is not an input here.
- HTTP. The API response is an input. The comma-joined id string is modelled as the list of ids. Writing a downloaded avatar adds its path to the set of files.
- `os.scandir` in `get_steam_skins`: the directory names are an input.
- Paths are joined with "/" as on Linux. Windows separators and `os.path.join`'s handling of absolute parts are not modelled.
- `arg_setup` (argparse) and the options `--add`, `--settings`, `--set`, `--first-run`, `--gui`, `--no-gui`, `--tray`, `--no-tray`. `parse` accepts them and does nothing with them.
- `set_account_localconfig`: a stub that prints a path built from a constant.
- `time.time()` is the parameter `now`.
- setup.py (packaging).
- Summaries are maps from string to string. The API's integer-valued keys are not modelled.
- `steam_name` absent and `steam_name` null are one value (None). No code in the core tells them apart.
- `str.isnumeric()` is modelled on ASCII digits. Other Unicode numeric characters are not modelled.
- Switcher.SteamSwitcher.SetAutologinAccount: on Windows a PermissionError from a registry write is caught and printed. In that case some values may stay unwritten; the model always writes them.
- Switcher.SteamSwitcher.GetSteamAvatars: a failed write of a downloaded file (for example a missing `avatars/` directory) is not modelled.
