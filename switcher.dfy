/** The `SteamSwitcher` object: the settings record it keeps in memory, the
    copy last written to `settings.json`, the skin list and the Steam
    registry, and the operations that update them in place. */
module Switcher {
  import opened Common
  import opened Accounts
  import opened Reconcile
  import opened Avatars
  import opened Preferences

  class SteamSwitcher {
    // `self.settings`: the preferences and the `users` dict (its map and key order)
    var prefs: Prefs
    var accounts: map<string, Account>
    var order: seq<string>
    /** The contents of `settings.json`, as last written. */
    var saved: Settings
    var steamSkins: Option<seq<string>>
    /** The Steam registry values (`HKCU\Software\Valve\Steam`, or `registry.vdf`). */
    var registry: map<string, string>
    var firstRun: bool
    var stop: bool
    const changerPath: string
    const defaultAvatar: string

    function Users(): Table
      reads this
    {
      Table(accounts, order)
    }

    /** The in-memory settings record, as `settings_write` serialises it. */
    function Snapshot(): Settings
      reads this
    {
      Settings(prefs, Users())
    }

    ghost predicate Valid()
      reads this
    {
      WellFormed(Users()) && defaultAvatar == DefaultAvatar(changerPath)
    }

    /** `__init__` up to argument parsing: the settings are loaded, or on first
        run the default record is written and read back; the skins are listed. */
    constructor (stored: Option<Settings>, skinDirs: Option<seq<string>>,
                 registry: map<string, string>, changerPath: string)
      requires stored.Some? ==> WellFormed(stored.value.users)
      ensures Valid()
      ensures firstRun <==> stored.None?
      ensures Snapshot() == (if stored.Some? then stored.value else DefaultSettings())
      ensures saved == Snapshot()
      ensures steamSkins == GetSteamSkins(skinDirs)
      ensures this.registry == registry && this.changerPath == changerPath && !stop
    {
      var loaded := if stored.Some? then stored.value else DefaultSettings();
      firstRun := stored.None?;
      saved := loaded;
      prefs := loaded.prefs;
      accounts := loaded.users.accounts;
      order := loaded.users.order;
      steamSkins := GetSteamSkins(skinDirs);
      this.registry := registry;
      stop := false;
      this.changerPath := changerPath;
      defaultAvatar := DefaultAvatar(changerPath);
    }

    /** `settings_write()`: the file holds a full snapshot of the settings. */
    method SettingsWrite()
      modifies this`saved
      ensures saved == Snapshot()
    {
      saved := Snapshot();
    }

    /** `add_account(login, supplied, original)`; the clock reads `now`. */
    method AddAccount(login: string, supplied: Supplied, original: string, now: nat) returns (res: Outcome)
      requires Valid()
      modifies this`accounts, this`order, this`saved
      ensures Valid()
      ensures var r := Accounts.AddAccount(old(Users()), login, supplied, original, steamSkins, now);
        && (r.Success? ==> res == Pass && Users() == r.value && saved == Snapshot())
        && (r.Failure? ==> res == Fail(r.error) && Users() == old(Users()) && saved == old(saved))
    {
      if steamSkins.None? {
        return Fail(SkinsUnavailable);
      }
      var t := Users();
      var user := NewRecord(supplied, steamSkins.value, |accounts| + 1, now);
      var base := t;
      if original != "" && login != original {
        user := user.(steamUser := None);
        if original !in accounts {
          return Fail(NoSuchAccount(original));
        }
        base := Pop(t, original);
      }
      var put := Put(base, login, user);
      assert Accounts.AddAccount(t, login, supplied, original, steamSkins, now) == Success(put);
      accounts, order := put.accounts, put.order;
      assert Users() == put;
      SettingsWrite();
      res := Pass;
    }

    /** `delete_account(name)`. */
    method DeleteAccount(name: string) returns (res: Outcome)
      requires Valid()
      modifies this`accounts, this`order, this`saved
      ensures Valid()
      ensures var r := Accounts.DeleteAccount(old(Users()), name);
        && (r.Success? ==> res == Pass && Users() == r.value && saved == Snapshot())
        && (r.Failure? ==> res == Fail(r.error) && Users() == old(Users()) && saved == old(saved))
    {
      if name !in accounts {
        return Fail(NoSuchAccount(name));
      }
      WithoutDistinct(order, name);
      accounts := accounts - {name};
      order := Without(order, name);
      SettingsWrite();
      res := Pass;
    }

    /** `update_steamuids(no_save)` over the records of `loginusers.vdf`
        (None when that file could not be loaded). A rejected uid stops the
        loop; the accounts updated before it stay updated and nothing is written. */
    method UpdateSteamUids(loginUsers: Option<seq<LoginUser>>, noSave: bool) returns (res: Outcome)
      requires Valid()
      modifies this`accounts, this`saved
      ensures Valid()
      ensures loginUsers.None? ==>
        res == Fail(LoginUsersUnavailable) && accounts == old(accounts) && saved == old(saved)
      ensures loginUsers.Some? ==>
        match FirstRejected(loginUsers.value)
        case Some(k) =>
          && res == Fail(NotASteamId(loginUsers.value[k].uid))
          && accounts == ApplyLoginUsers(old(accounts), loginUsers.value[..k], noSave)
          && saved == old(saved)
        case None =>
          && res == Pass
          && accounts == ApplyLoginUsers(old(accounts), loginUsers.value, noSave)
          && saved == (if noSave then old(saved) else Snapshot())
    {
      if loginUsers.None? {
        return Fail(LoginUsersUnavailable);
      }
      var us := loginUsers.value;
      var i := 0;
      assert us[..i] == [];
      while i < |us|
        invariant 0 <= i <= |us|
        invariant accounts == ApplyLoginUsers(old(accounts), us[..i], noSave)
        invariant accounts.Keys == old(accounts).Keys && Valid()
        invariant saved == old(saved)
        invariant forall j :: 0 <= j < i ==> !RejectedUid(us[j].uid)
      {
        var u := us[i];
        if RejectedUid(u.uid) {
          assert FirstRejected(us) == Some(i);
          return Fail(NotASteamId(u.uid));
        }
        assert us[..i + 1][..i] == us[..i];
        ApplyLoginRecord(u, noSave);
        i := i + 1;
      }
      assert us[..i] == us;
      assert FirstRejected(us).None?;
      if !noSave {
        SettingsWrite();
      }
      res := Pass;
    }

    /** One iteration of that loop after the uid check: the named account, if
        stored, takes the record's uid and persona name (unless `no_save`). */
    method ApplyLoginRecord(u: LoginUser, noSave: bool)
      modifies this`accounts
      ensures accounts == ApplyLoginUser(old(accounts), u, noSave)
    {
      if u.accountName in accounts && !noSave {
        accounts := accounts[u.accountName := accounts[u.accountName].(steamUid := u.uid, steamName := Some(u.personaName))];
      }
    }

    /** `get_steamapi_usersummary(uids, get_missing)`. `uids == []` stands for
        None or an empty list; `requested` is the id list sent to the API (None
        when no request is built); the response is `status` and `players`. */
    method GetSteamApiUserSummary(uids: seq<string>, getMissing: bool, now: nat, status: int, players: seq<Summary>)
      returns (requested: Option<seq<string>>, res: Outcome)
      requires Valid()
      modifies this`prefs, this`accounts, this`saved
      ensures Valid()
      ensures old(prefs).steamApiKey == "" ==>
        requested.None? && res == Fail(NoApiKey) && prefs == old(prefs) && accounts == old(accounts) && saved == old(saved)
      ensures old(prefs).steamApiKey != "" ==>
        && requested == Some(if uids == [] then RequestedUids(old(accounts), order, getMissing) else uids)
        && prefs == old(prefs).(lastRefreshed := Some(Decimal(now)))
      ensures old(prefs).steamApiKey != "" && !(status == 200 && players != []) ==>
        res == Fail(SummaryDownloadFailed) && accounts == old(accounts) && saved == old(saved)
      ensures old(prefs).steamApiKey != "" && status == 200 && players != [] ==>
        var r := AttachPlayers(old(Users()), players);
        && (r.Success? ==> res == Pass && Users() == r.value && saved == Snapshot())
        && (r.Failure? ==> res == Fail(r.error) && saved == old(saved))
        && (r.Failure? ==> exists k :: 0 <= k < |players| && AttachPlayers(old(Users()), players[..k]) == Success(Users())
                                                        && AttachPlayer(Users(), players[k]) == r)
    {
      if prefs.steamApiKey == "" {
        return None, Fail(NoApiKey);
      }
      var ids := uids;
      if ids == [] {
        ids := RequestedUids(accounts, order, getMissing);
      }
      prefs := prefs.(lastRefreshed := Some(Decimal(now)));
      requested := Some(ids);
      if !(status == 200 && players != []) {
        return requested, Fail(SummaryDownloadFailed);
      }
      res := AttachReturnedPlayers(players);
      if res.Pass? {
        SettingsWrite();
      }
    }

    /** The loop of `get_steamapi_usersummary` over the returned players: each
        is attached to the first account with its `steamid`. A failing player
        stops the loop; the players before it stay attached. */
    method AttachReturnedPlayers(players: seq<Summary>) returns (res: Outcome)
      requires Valid()
      modifies this`accounts
      ensures Valid()
      ensures var r := AttachPlayers(old(Users()), players);
        && (r.Success? ==> res == Pass && Users() == r.value)
        && (r.Failure? ==> res == Fail(r.error))
        && (r.Failure? ==> exists k :: 0 <= k < |players| && AttachPlayers(old(Users()), players[..k]) == Success(Users())
                                                        && AttachPlayer(Users(), players[k]) == r)
    {
      var i := 0;
      assert players[..i] == [];
      while i < |players|
        invariant 0 <= i <= |players|
        invariant WellFormed(Users())
        invariant AttachPlayers(old(Users()), players[..i]) == Success(Users())
        invariant Valid()
      {
        ghost var before := Users();
        assert players[..i + 1][..i] == players[..i];
        assert AttachPlayers(old(Users()), players[..i + 1]) == AttachPlayer(before, players[i]);
        var step := AttachOne(players[i]);
        if step.Fail? {
          assert AttachPlayer(Users(), players[i]) == Failure(step.error);
          AttachPlayersFailureSticks(old(Users()), players, i + 1);
          assert AttachPlayers(old(Users()), players) == Failure(step.error);
          return step;
        }
        i := i + 1;
      }
      assert players[..i] == players;
      res := Pass;
    }

    /** One iteration of that loop: the account whose `steam_uid` is the
        player's `steamid`, the first in table order, gets the summary and
        its `personaname`. */
    method AttachOne(p: Summary) returns (res: Outcome)
      requires WellFormed(Users())
      modifies this`accounts
      ensures var r := AttachPlayer(old(Users()), p);
        && (r.Success? ==> res == Pass && Users() == r.value)
        && (r.Failure? ==> res == Fail(r.error) && Users() == old(Users()))
    {
      if order == [] {
        return Fail(NoAccountForPlayer);
      }
      if "steamid" !in p {
        return Fail(PlayerWithoutSteamId);
      }
      var k := FirstWithUid(accounts, order, p["steamid"]);
      if k.None? {
        return Fail(NoAccountForPlayer);
      }
      var name := order[k.value];
      var user := accounts[name];
      user := user.(steamUser := Some(p), steamName := if "personaname" in p then Some(p["personaname"]) else None);
      accounts := accounts[name := user];
      res := Pass;
    }

    /** `get_steam_avatars(names)` against the files on disk and the network;
        `filesAfter` is the disk after the downloads, which stay even when a
        later request raises. */
    method GetSteamAvatars(names: seq<string>, files: set<string>, net: map<string, int>)
      returns (res: Result<map<string, string>>, filesAfter: set<string>)
      requires Valid()
      ensures var r := Resolve(accounts, changerPath, net, files, names);
        && filesAfter == r.files
        && (res.Success? <==> !r.failed)
        && (res.Success? ==> res.value == r.paths)
        && (res.Failure? ==> res.error == AvatarRequestFailed)
    {
      var r: map<string, string> := map[];
      filesAfter := files;
      var i := 0;
      assert names[..i] == [];
      while i < |names|
        invariant 0 <= i <= |names|
        invariant Resolve(accounts, changerPath, net, files, names[..i]) == Resolution(r, filesAfter, false)
      {
        var name := names[i];
        assert names[..i + 1][..i] == names[..i];
        ghost var next := ResolveOne(accounts, changerPath, net, Resolution(r, filesAfter, false), name);
        assert Resolve(accounts, changerPath, net, files, names[..i + 1]) == next;
        if name in accounts {
          var user := accounts[name];
          if user.steamUser.Some? {
            var summary := user.steamUser.value;
            var imgFilename := if "avatarfull" in summary then LastSegment(summary["avatarfull"]) else "avatar.png";
            var avatarPath := AvatarPath(changerPath, imgFilename);
            if avatarPath in filesAfter {
              r := r[name := avatarPath];
            } else if "avatarfull" !in summary || summary["avatarfull"] !in net {
              ResolveFailureSticks(accounts, changerPath, net, files, names, i + 1);
              return Failure(AvatarRequestFailed), filesAfter;
            } else if net[summary["avatarfull"]] == 200 {
              filesAfter := filesAfter + {avatarPath};
              r := r[name := avatarPath];
            } else {
              r := r[name := defaultAvatar];
            }
          }
          // a stored account without "steam_user": the KeyError is caught and the name skipped
        } else {
          r := r[name := defaultAvatar];
        }
        assert Resolution(r, filesAfter, false) == next;
        i := i + 1;
      }
      assert names[..i] == names;
      res := Success(r);
    }

    /** `set_autologin_account(name)`. */
    method SetAutologinAccount(name: string)
      modifies this`registry
      ensures registry == AutologinWrites(old(registry), accounts, name)
    {
      registry := registry[AutoLoginUser := name];
      if name in accounts {
        registry := registry[SkinV5 := accounts[name].steamSkin];
      }
    }

    /** `login_with(name, force)`: only a stored name, or any name when forced,
        stops Steam, writes the registry and starts Steam again (the result is
        whether it did). `killDenied` is a PermissionError while stopping
        Steam, which propagates before anything is written. */
    method LoginWith(name: string, force: bool, killDenied: bool) returns (res: Result<bool>)
      modifies this`registry
      ensures !(name in accounts || force) ==> res == Success(false) && registry == old(registry)
      ensures (name in accounts || force) && killDenied ==> res == Failure(KillDenied) && registry == old(registry)
      ensures (name in accounts || force) && !killDenied ==>
        res == Success(true) && registry == AutologinWrites(old(registry), accounts, name)
    {
      if name in accounts || force {
        if killDenied {
          return Failure(KillDenied);
        }
        SetAutologinAccount(name);
        return Success(true);
      }
      res := Success(false);
    }

    /** `parse(args)` for `--login`, `--force-login`, `--list` and `--delete`;
        an empty string is an option not given. `listed` is what `--list`
        prints. A login only happens for a stored name unless forced, and a
        delete only for a stored name. */
    method Parse(login: string, forceLogin: string, list: bool, delete: string, killDenied: bool)
      returns (res: Outcome, listed: Option<seq<string>>)
      requires Valid()
      modifies this`registry, this`stop, this`accounts, this`order, this`saved
      ensures Valid()
      ensures var target := if login != "" && login in old(accounts) then login else forceLogin;
        res == (if target != "" && killDenied then Fail(KillDenied) else Pass)
      ensures var target := if login != "" && login in old(accounts) then login else forceLogin;
        registry == (if target != "" && !killDenied then AutologinWrites(old(registry), old(accounts), target) else old(registry))
      ensures res.Fail? ==> Users() == old(Users()) && saved == old(saved) && stop == old(stop) && listed.None?
      ensures res.Pass? ==> listed == (if list then Some(old(order)) else None) && stop == (list || old(stop))
      ensures res.Pass? && delete != "" && delete in old(accounts) ==>
        Users() == Accounts.DeleteAccount(old(Users()), delete).value && saved == Snapshot()
      ensures !(delete != "" && delete in old(accounts)) ==> Users() == old(Users()) && saved == old(saved)
    {
      listed := None;
      res := LoginFromArgs(login, forceLogin, killDenied);
      if res.Fail? {
        return;
      }
      if list {
        listed := Some(order);
        stop := true;
      }
      assert Users() == old(Users()) && saved == old(saved);
      DeleteIfStored(delete);
      res := Pass;
    }

    /** The `--login` / `--force-login` branch of `parse`: `--login` of a
        stored name wins; otherwise `--force-login`, if given, logs in to any name. */
    method LoginFromArgs(login: string, forceLogin: string, killDenied: bool) returns (res: Outcome)
      modifies this`registry
      ensures var target := if login != "" && login in accounts then login else forceLogin;
        res == (if target != "" && killDenied then Fail(KillDenied) else Pass)
      ensures var target := if login != "" && login in accounts then login else forceLogin;
        registry == (if target != "" && !killDenied then AutologinWrites(old(registry), accounts, target) else old(registry))
    {
      var force := !(login != "" && login in accounts);
      var target := if force then forceLogin else login;
      res := Pass;
      if target != "" {
        var r := LoginWith(target, force, killDenied);
        if r.Failure? {
          res := Fail(r.error);
        }
      }
    }

    /** The `--delete` branch of `parse`: only a stored name is deleted;
        otherwise the account table and the file are left alone. */
    method DeleteIfStored(name: string)
      requires Valid()
      modifies this`accounts, this`order, this`saved
      ensures Valid()
      ensures name != "" && name in old(accounts) ==>
        Users() == Accounts.DeleteAccount(old(Users()), name).value && saved == Snapshot()
      ensures !(name != "" && name in old(accounts)) ==> Users() == old(Users()) && saved == old(saved)
    {
      if name != "" && name in accounts {
        var _ := DeleteAccount(name);
      }
    }
  }
}
