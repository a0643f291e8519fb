/** Reconciling the account table with what Steam knows: the records of
    `loginusers.vdf` (`update_steamuids`) and the player summaries of the Steam
    Web API (`get_steamapi_usersummary`), as functions on values. */
module Reconcile {
  import opened Common
  import opened Accounts

  /** One entry of `loginusers.vdf`: its key (the uid), `AccountName`, `PersonaName`. */
  datatype LoginUser = LoginUser(uid: string, accountName: string, personaName: string)

  /** `not len(uid) == 17 and uid.isnumeric()`: precedence makes this "all
      digits but not 17 long", so a uid with any non-digit passes. */
  function RejectedUid(uid: string): (rejected: bool)
    ensures rejected ==> |uid| != 17 && |uid| > 0
    ensures |uid| == 17 || uid == [] ==> !rejected
    ensures (exists i :: 0 <= i < |uid| && !IsDigit(uid[i])) ==> !rejected
  {
    !(|uid| == 17) && IsNumeric(uid)
  }

  /** The index of the first record whose uid is rejected, if any. */
  function FirstRejected(us: seq<LoginUser>): (k: Option<nat>)
    ensures k.Some? ==> k.value < |us| && RejectedUid(us[k.value].uid)
    ensures k.Some? ==> forall j :: 0 <= j < k.value ==> !RejectedUid(us[j].uid)
    ensures k.None? ==> forall j :: 0 <= j < |us| ==> !RejectedUid(us[j].uid)
  {
    if us == [] then None
    else if RejectedUid(us[0].uid) then Some(0)
    else match FirstRejected(us[1..])
      case None => None
      case Some(k) => Some(k + 1)
  }

  /** One iteration of the `update_steamuids` loop after the uid check: only
      the account the record names changes, and only in uid and persona name. */
  function ApplyLoginUser(accounts: map<string, Account>, u: LoginUser, noSave: bool): (r: map<string, Account>)
    ensures r.Keys == accounts.Keys
    ensures forall n :: n in accounts && (n != u.accountName || noSave) ==> r[n] == accounts[n]
    ensures u.accountName in accounts && !noSave ==>
      && r[u.accountName].steamUid == u.uid && r[u.accountName].steamName == Some(u.personaName)
      && r[u.accountName].steamUser == accounts[u.accountName].steamUser
      && r[u.accountName].steamSkin == accounts[u.accountName].steamSkin
  {
    if u.accountName in accounts && !noSave then
      accounts[u.accountName := accounts[u.accountName].(steamUid := u.uid, steamName := Some(u.personaName))]
    else accounts
  }

  /** The loop applied to the records `us`, in order. */
  function ApplyLoginUsers(accounts: map<string, Account>, us: seq<LoginUser>, noSave: bool): (r: map<string, Account>)
    ensures r.Keys == accounts.Keys
    decreases |us|
  {
    if us == [] then accounts
    else ApplyLoginUser(ApplyLoginUsers(accounts, us[..|us| - 1], noSave), us[|us| - 1], noSave)
  }

  /** The last record naming `name`, if any. */
  function LastRecordFor(us: seq<LoginUser>, name: string): (r: Option<LoginUser>)
    ensures r.Some? ==> exists k :: 0 <= k < |us| && us[k] == r.value && r.value.accountName == name
                                    && forall j :: k < j < |us| ==> us[j].accountName != name
    ensures r.None? <==> forall j :: 0 <= j < |us| ==> us[j].accountName != name
    decreases |us|
  {
    if us == [] then None
    else if us[|us| - 1].accountName == name then Some(us[|us| - 1])
    else
      assert forall j :: 0 <= j < |us| - 1 ==> us[..|us| - 1][j] == us[j];
      LastRecordFor(us[..|us| - 1], name)
  }

  /** Closed form of the loop: the stored names are unchanged, and each stored
      account takes uid and persona name from the last record naming it; an
      account no record names is untouched. */
  lemma {:induction false} ApplyLoginUsersAt(accounts: map<string, Account>, us: seq<LoginUser>, name: string)
    ensures ApplyLoginUsers(accounts, us, false).Keys == accounts.Keys
    ensures name in accounts ==>
      ApplyLoginUsers(accounts, us, false)[name] ==
        match LastRecordFor(us, name)
        case None => accounts[name]
        case Some(u) => accounts[name].(steamUid := u.uid, steamName := Some(u.personaName))
    decreases |us|
  {
    if us != [] {
      ApplyLoginUsersAt(accounts, us[..|us| - 1], name);
    }
  }

  /** With `no_save` no account changes at all. */
  lemma {:induction false} NoSaveChangesNothing(accounts: map<string, Account>, us: seq<LoginUser>)
    ensures ApplyLoginUsers(accounts, us, true) == accounts
    decreases |us|
  {
    if us != [] {
      NoSaveChangesNothing(accounts, us[..|us| - 1]);
    }
  }

  /** Reconciling never touches skins, so it keeps every skin known. */
  lemma ApplyLoginUsersKeepsSkins(accounts: map<string, Account>, us: seq<LoginUser>, noSave: bool, skins: seq<string>)
    requires SkinsKnown(accounts, skins)
    ensures SkinsKnown(ApplyLoginUsers(accounts, us, noSave), skins)
    decreases |us|
  {
    if us != [] {
      ApplyLoginUsersKeepsSkins(accounts, us[..|us| - 1], noSave, skins);
    }
  }

  // ---- Steam Web API player summaries ----

  /** `not user.get("steam_user")`: the summary is missing or empty. */
  function NeedsSummary(a: Account): (needs: bool)
    ensures needs <==> a.steamUser.None? || |a.steamUser.value| == 0
  {
    a.steamUser.None? || a.steamUser.value == map[]
  }

  /** The uids requested when none are given: those of the accounts in table
      order, only of the accounts needing a summary when `getMissing`. */
  function RequestedUids(accounts: map<string, Account>, order: seq<string>, getMissing: bool): (uids: seq<string>)
    requires forall n :: n in order ==> n in accounts
    ensures |uids| <= |order|
    ensures !getMissing ==> |uids| == |order|
  {
    if order == [] then []
    else
      var a := accounts[order[0]];
      (if !getMissing || NeedsSummary(a) then [a.steamUid] else []) + RequestedUids(accounts, order[1..], getMissing)
  }

  /** A uid is requested exactly when some account in the order has it (and,
      with `getMissing`, needs a summary). */
  lemma {:induction false} RequestedUidsExactly(accounts: map<string, Account>, order: seq<string>, getMissing: bool, uid: string)
    requires forall n :: n in order ==> n in accounts
    ensures uid in RequestedUids(accounts, order, getMissing) <==>
      exists i :: 0 <= i < |order| && accounts[order[i]].steamUid == uid && (getMissing ==> NeedsSummary(accounts[order[i]]))
  {
    if order != [] {
      RequestedUidsExactly(accounts, order[1..], getMissing, uid);
      var a := accounts[order[0]];
      if exists i :: 0 <= i < |order| && accounts[order[i]].steamUid == uid && (getMissing ==> NeedsSummary(accounts[order[i]])) {
        var i :| 0 <= i < |order| && accounts[order[i]].steamUid == uid && (getMissing ==> NeedsSummary(accounts[order[i]]));
        if i > 0 {
          assert order[1..][i - 1] == order[i];
        }
      }
      if uid in RequestedUids(accounts, order[1..], getMissing) {
        var i :| 0 <= i < |order[1..]| && accounts[order[1..][i]].steamUid == uid && (getMissing ==> NeedsSummary(accounts[order[1..][i]]));
        assert order[i + 1] == order[1..][i];
      }
    }
  }

  /** The position of the first account in table order whose uid is `uid`. */
  function FirstWithUid(accounts: map<string, Account>, order: seq<string>, uid: string): (k: Option<nat>)
    requires forall n :: n in order ==> n in accounts
    ensures k.Some? ==> k.value < |order| && accounts[order[k.value]].steamUid == uid
    ensures k.Some? ==> forall j :: 0 <= j < k.value ==> accounts[order[j]].steamUid != uid
    ensures k.None? ==> forall j :: 0 <= j < |order| ==> accounts[order[j]].steamUid != uid
  {
    if order == [] then None
    else if accounts[order[0]].steamUid == uid then Some(0)
    else match FirstWithUid(accounts, order[1..], uid)
      case None => None
      case Some(k) => Some(k + 1)
  }

  /** One iteration of the attach loop: the player goes to the first account
      with its `steamid`, which also gets `steam_name := personaname`. The
      comprehension only reads `steamid` while visiting an account, so on an
      empty table the lookup fails with IndexError even without a `steamid`. */
  function AttachPlayer(t: Table, p: Summary): (r: Result<Table>)
    requires WellFormed(t)
    ensures r.Failure? <==> t.order == [] || "steamid" !in p || FirstWithUid(t.accounts, t.order, p["steamid"]).None?
    ensures r.Failure? && t.order != [] && "steamid" !in p ==> r.error == PlayerWithoutSteamId
    ensures r.Failure? && (t.order == [] || "steamid" in p) ==> r.error == NoAccountForPlayer
    ensures r.Success? ==> WellFormed(r.value) && r.value.order == t.order && r.value.accounts.Keys == t.accounts.Keys
    ensures r.Success? ==>
      var n := t.order[FirstWithUid(t.accounts, t.order, p["steamid"]).value];
      && r.value.accounts[n] == t.accounts[n].(steamUser := Some(p),
                                               steamName := if "personaname" in p then Some(p["personaname"]) else None)
      && forall m :: m in t.accounts && m != n ==> r.value.accounts[m] == t.accounts[m]
  {
    if t.order == [] then Failure(NoAccountForPlayer)
    else if "steamid" !in p then Failure(PlayerWithoutSteamId)
    else match FirstWithUid(t.accounts, t.order, p["steamid"])
      case None => Failure(NoAccountForPlayer)
      case Some(k) =>
        var n := t.order[k];
        var a := t.accounts[n].(steamUser := Some(p),
                                steamName := if "personaname" in p then Some(p["personaname"]) else None);
        Success(Table(t.accounts[n := a], t.order))
  }

  /** The attach loop over the returned players, in order; the first failure wins. */
  function AttachPlayers(t: Table, ps: seq<Summary>): (r: Result<Table>)
    requires WellFormed(t)
    ensures r.Success? ==> WellFormed(r.value) && r.value.order == t.order
    decreases |ps|
  {
    if ps == [] then Success(t)
    else match AttachPlayers(t, ps[..|ps| - 1])
      case Failure(e) => Failure(e)
      case Success(t') => AttachPlayer(t', ps[|ps| - 1])
  }

  /** Once a prefix of the players fails, the whole loop fails with that error:
      nothing after a failing player is attached. */
  lemma {:induction false} AttachPlayersFailureSticks(t: Table, ps: seq<Summary>, k: nat)
    requires WellFormed(t) && k <= |ps|
    requires AttachPlayers(t, ps[..k]).Failure?
    ensures AttachPlayers(t, ps) == AttachPlayers(t, ps[..k])
    decreases |ps| - k
  {
    if k < |ps| {
      assert ps[..|ps| - 1][..k] == ps[..k];
      AttachPlayersFailureSticks(t, ps[..|ps| - 1], k);
    } else {
      assert ps[..k] == ps;
    }
  }

  /** Attaching summaries never touches skins, so it keeps every skin known. */
  lemma {:induction false} AttachPlayersKeepsSkins(t: Table, ps: seq<Summary>, skins: seq<string>)
    requires WellFormed(t) && SkinsKnown(t.accounts, skins)
    ensures AttachPlayers(t, ps).Success? ==> SkinsKnown(AttachPlayers(t, ps).value.accounts, skins)
    decreases |ps|
  {
    if ps != [] {
      AttachPlayersKeepsSkins(t, ps[..|ps| - 1], skins);
    }
  }
}
