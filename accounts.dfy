/** The account table `settings["users"]` of the switcher: its records, the
    skin list, and the add/rename and delete operations as functions on values.
    The table is a map plus the key order Python's dict keeps (insertion order;
    assigning an existing key keeps its place, `pop` removes it). */
module Accounts {
  import opened Common

  /** A player summary blob from the Steam Web API (its string-valued keys). */
  type Summary = map<string, string>

  /** One account record. `steamUser` is None when the key is absent (a rename
      drops it); `steamName` is None when the key is absent or null. */
  datatype Account = Account(
    comment: string,
    displayOrder: int,
    timestamp: string,
    steamSkin: string,
    steamUid: string,
    steamUser: Option<Summary>,
    steamName: Option<string>)

  /** The fields a caller of `add_account` may supply; None is a missing key. */
  datatype Supplied = Supplied(
    comment: Option<string>,
    timestamp: Option<string>,
    steamSkin: Option<string>,
    steamUid: Option<string>,
    steamUser: Option<Summary>)

  /** What the edit dialog passes back: the stored record with its comment and
      skin replaced by what the user typed and picked. */
  function EditedFields(a: Account, comment: string, skin: string): Supplied {
    Supplied(Some(comment), Some(a.timestamp), Some(skin), Some(a.steamUid), a.steamUser)
  }

  datatype Table = Table(accounts: map<string, Account>, order: seq<string>)

  ghost predicate Distinct(s: seq<string>) {
    forall i, j :: 0 <= i < j < |s| ==> s[i] != s[j]
  }

  /** The key order lists every stored name exactly once. */
  ghost predicate WellFormed(t: Table) {
    && Distinct(t.order)
    && (forall n :: n in t.accounts <==> n in t.order)
  }

  /** Every stored account's skin is one of `skins`. */
  ghost predicate SkinsKnown(accounts: map<string, Account>, skins: seq<string>) {
    forall n :: n in accounts ==> accounts[n].steamSkin in skins
  }

  /** `get_steam_skins`: the skin directory names with "default" inserted at
      index 0, or None when the skins directory is missing. */
  function GetSteamSkins(dirs: Option<seq<string>>): (skins: Option<seq<string>>)
    ensures skins.Some? <==> dirs.Some?
    ensures skins.Some? ==> |skins.value| == |dirs.value| + 1 && skins.value[0] == "default"
    ensures skins.Some? ==> forall i :: 0 <= i < |dirs.value| ==> skins.value[i + 1] == dirs.value[i]
  {
    match dirs
    case None => None
    case Some(d) => Some(["default"] + d)
  }

  /** The skin stored for a supplied skin: itself when known, else "default". */
  function SkinOrDefault(skin: Option<string>, skins: seq<string>): string {
    if skin.Some? && skin.value in skins then skin.value else "default"
  }

  /** The record `add_account` builds from the supplied fields: it always has
      a summary (`{}` when none is supplied), never a persona name, a non-empty
      timestamp and a skin that is known or "default". */
  function NewRecord(s: Supplied, skins: seq<string>, displayOrder: int, now: nat): (a: Account)
    ensures a.displayOrder == displayOrder
    ensures a.steamUser.Some? && a.steamName.None?
    ensures s.steamUser.None? ==> a.steamUser == Some(map[])
    ensures a.timestamp != ""
    ensures a.steamSkin in skins || a.steamSkin == "default"
  {
    Account(
      comment := if s.comment.Some? then s.comment.value else "",
      displayOrder := displayOrder,
      timestamp := if s.timestamp.Some? && s.timestamp.value != "" then s.timestamp.value else Decimal(now),
      steamSkin := SkinOrDefault(s.steamSkin, skins),
      steamUid := if s.steamUid.Some? then s.steamUid.value else "",
      steamUser := Some(if s.steamUser.Some? then s.steamUser.value else map[]),
      steamName := None)
  }

  /** `s` with `x` removed, other names keeping their relative order. */
  function Without(s: seq<string>, x: string): (r: seq<string>)
    ensures forall y :: y in r <==> y in s && y != x
    ensures x !in s ==> r == s
  {
    if s == [] then [] else (if s[0] == x then [] else [s[0]]) + Without(s[1..], x)
  }

  /** The tail of a distinct sequence is distinct and lacks its head. */
  lemma DistinctTail(s: seq<string>)
    requires Distinct(s) && s != []
    ensures Distinct(s[1..]) && s[0] !in s[1..]
  {
    forall i, j | 0 <= i < j < |s[1..]| ensures s[1..][i] != s[1..][j] {
      assert s[1..][i] == s[i + 1] && s[1..][j] == s[j + 1];
    }
    forall k | 0 <= k < |s[1..]| ensures s[1..][k] != s[0] {
      assert s[1..][k] == s[k + 1];
    }
  }

  /** In a distinct sequence, removing the name at position `i` cuts it out
      there: the names before and after it keep their relative order. */
  lemma {:induction false} WithoutAt(s: seq<string>, i: nat)
    requires Distinct(s) && i < |s|
    ensures Without(s, s[i]) == s[..i] + s[i + 1..]
  {
    var tail := s[1..];
    if i == 0 {
      assert s[0] !in tail by { DistinctTail(s); }
      assert Without(s, s[0]) == [] + Without(tail, s[0]);
      assert s[..0] + tail == tail;
    } else {
      assert Distinct(tail) && tail[i - 1] == s[i] && s[0] != s[i] by { DistinctTail(s); }
      calc {
        Without(s, s[i]);
        [s[0]] + Without(tail, s[i]);
        { WithoutAt(tail, i - 1); }
        [s[0]] + (tail[..i - 1] + tail[i..]);
        { assert tail[..i - 1] == s[1..i] && tail[i..] == s[i + 1..]; }
        [s[0]] + (s[1..i] + s[i + 1..]);
        { assert [s[0]] + s[1..i] == s[..i]; }
        s[..i] + s[i + 1..];
      }
    }
  }

  /** Removing a stored name from a distinct order cuts it out at its position. */
  lemma WithoutStored(s: seq<string>, x: string)
    requires Distinct(s) && x in s
    ensures exists i :: 0 <= i < |s| && s[i] == x && Without(s, x) == s[..i] + s[i + 1..]
  {
    var i :| 0 <= i < |s| && s[i] == x;
    WithoutAt(s, i);
  }

  lemma {:induction false} WithoutDistinct(s: seq<string>, x: string)
    requires Distinct(s)
    ensures Distinct(Without(s, x))
  {
    if s != [] {
      var tail := Without(s[1..], x);
      DistinctTail(s);
      WithoutDistinct(s[1..], x);
      if s[0] != x {
        assert s[0] !in tail;
        var r := [s[0]] + tail;
        forall i, j | 0 <= i < j < |r| ensures r[i] != r[j] {
          if i == 0 {
            assert r[j] == tail[j - 1];
          } else {
            assert r[i] == tail[i - 1] && r[j] == tail[j - 1];
          }
        }
      }
    }
  }

  /** `users[name] = a`: replaces in place, or appends a new key at the end. */
  function Put(t: Table, name: string, a: Account): (r: Table)
    requires WellFormed(t)
    ensures WellFormed(r)
    ensures r.accounts == t.accounts[name := a]
    ensures r.order == t.order + (if name in t.accounts then [] else [name])
  {
    if name in t.accounts then Table(t.accounts[name := a], t.order)
    else
      var r := Table(t.accounts[name := a], t.order + [name]);
      assert forall i :: 0 <= i < |t.order| ==> r.order[i] == t.order[i];
      r
  }

  /** `users.pop(name)` for a stored name. */
  function Pop(t: Table, name: string): (r: Table)
    requires WellFormed(t) && name in t.accounts
    ensures WellFormed(r)
    ensures |r.accounts| == |t.accounts| - 1
  {
    WithoutDistinct(t.order, name);
    Table(t.accounts - {name}, Without(t.order, name))
  }

  /** `add_account(login, supplied, original)` with the clock reading `now`.
      An empty `original` stands for None (both are falsy in the source). */
  function AddAccount(t: Table, login: string, s: Supplied, original: string,
                      skins: Option<seq<string>>, now: nat): (r: Result<Table>)
    requires WellFormed(t)
    ensures r.Failure? <==> skins.None? || (original != "" && login != original && original !in t.accounts)
    ensures r.Failure? && skins.None? ==> r.error == SkinsUnavailable
    ensures r.Failure? && skins.Some? ==> r.error == NoSuchAccount(original)
    ensures r.Success? ==> WellFormed(r.value) && login in r.value.accounts
  {
    if skins.None? then Failure(SkinsUnavailable)
    else
      var rec := NewRecord(s, skins.value, |t.accounts| + 1, now);
      if original != "" && login != original then
        if original !in t.accounts then Failure(NoSuchAccount(original))
        else Success(Put(Pop(t, original), login, rec.(steamUser := None)))
      else Success(Put(t, login, rec))
  }

  /** `delete_account(name)`: `pop` raises KeyError for a name not stored. */
  function DeleteAccount(t: Table, name: string): (r: Result<Table>)
    requires WellFormed(t)
    ensures r.Failure? <==> name !in t.accounts
    ensures r.Failure? ==> r.error == NoSuchAccount(name)
    ensures r.Success? ==> WellFormed(r.value)
    ensures r.Success? ==> forall n :: n in r.value.accounts <==> n in t.accounts && n != name
    ensures r.Success? ==> forall n :: n in r.value.accounts ==> r.value.accounts[n] == t.accounts[n]
    ensures r.Success? ==> exists i :: 0 <= i < |t.order| && t.order[i] == name && r.value.order == t.order[..i] + t.order[i + 1..]
  {
    if name !in t.accounts then Failure(NoSuchAccount(name))
    else
      WithoutStored(t.order, name);
      Success(Pop(t, name))
  }

  /** The record `add_account` stores under `login`. */
  function Added(t: Table, login: string, s: Supplied, original: string, skins: seq<string>, now: nat): Account
    requires WellFormed(t)
    requires !(original != "" && login != original && original !in t.accounts)
  {
    AddAccount(t, login, s, original, Some(skins), now).value.accounts[login]
  }

  /** The stored record gets display order "table size before the call, plus one",
      the supplied or defaulted fields, a known skin and no `steam_name`. */
  lemma AddedRecord(t: Table, login: string, s: Supplied, original: string, skins: seq<string>, now: nat)
    requires WellFormed(t)
    requires !(original != "" && login != original && original !in t.accounts)
    ensures AddAccount(t, login, s, original, Some(skins), now).Success?
    ensures Added(t, login, s, original, skins, now).displayOrder == |t.accounts| + 1
    ensures Added(t, login, s, original, skins, now).comment == (if s.comment.Some? then s.comment.value else "")
    ensures Added(t, login, s, original, skins, now).steamUid == (if s.steamUid.Some? then s.steamUid.value else "")
    ensures s.timestamp.Some? && s.timestamp.value != "" ==>
      Added(t, login, s, original, skins, now).timestamp == s.timestamp.value
    ensures s.timestamp.None? || s.timestamp.value == "" ==>
      Added(t, login, s, original, skins, now).timestamp == Decimal(now)
    ensures Added(t, login, s, original, skins, now).timestamp != ""
    ensures s.steamSkin.Some? && s.steamSkin.value in skins ==>
      Added(t, login, s, original, skins, now).steamSkin == s.steamSkin.value
    ensures s.steamSkin.None? || s.steamSkin.value !in skins ==>
      Added(t, login, s, original, skins, now).steamSkin == "default"
    ensures Added(t, login, s, original, skins, now).steamName.None?
  {
    var rec := NewRecord(s, skins, |t.accounts| + 1, now);
    assert Added(t, login, s, original, skins, now)
      == if original != "" && login != original then rec.(steamUser := None) else rec;
  }

  /** Adding without a rename: `login` maps to the new record (with a
      `steam_user`, `{}` when none was supplied), the order only gains `login`
      at the end when it is new, and every other entry is unchanged. */
  lemma {:induction false} AddKeepsOthers(t: Table, login: string, s: Supplied, original: string, skins: seq<string>, now: nat)
    requires WellFormed(t)
    requires original == "" || original == login
    ensures var r := AddAccount(t, login, s, original, Some(skins), now);
      && r.Success?
      && r.value.accounts[login].steamUser == Some(if s.steamUser.Some? then s.steamUser.value else map[])
      && (login in t.accounts ==> r.value.order == t.order)
      && (login !in t.accounts ==> r.value.order == t.order + [login])
      && (forall n :: n != login ==> (n in r.value.accounts <==> n in t.accounts))
      && (forall n :: n != login && n in t.accounts ==> r.value.accounts[n] == t.accounts[n])
  {
  }

  /** Renaming `original` to `login`: the original key is gone, `login` holds
      the new record without `steam_user`, every other entry is unchanged; the
      original must be stored. */
  lemma Rename(t: Table, login: string, s: Supplied, original: string, skins: seq<string>, now: nat)
    requires WellFormed(t)
    requires original != "" && original != login
    ensures var r := AddAccount(t, login, s, original, Some(skins), now);
      && (r.Success? <==> original in t.accounts)
      && (r.Success? ==>
            && original !in r.value.accounts
            && login in r.value.accounts
            && r.value.accounts[login].steamUser.None?
            && r.value.accounts[login].steamName.None?
            && (forall n :: n != login && n != original ==> (n in r.value.accounts <==> n in t.accounts))
            && (forall n :: n != login && n != original && n in t.accounts ==> r.value.accounts[n] == t.accounts[n])
            && r.value.order == Without(t.order, original) + (if login in t.accounts then [] else [login]))
  {
    if original in t.accounts {
      var p := Pop(t, original);
      var rec := NewRecord(s, skins, |t.accounts| + 1, now).(steamUser := None);
      assert AddAccount(t, login, s, original, Some(skins), now) == Success(Put(p, login, rec));
      assert login in p.accounts <==> login in t.accounts;
    }
  }

  /** On a rename to a new name the display order is counted before the
      original key is dropped, so it is one more than the final table size. */
  lemma RenameDisplayOrder(t: Table, login: string, s: Supplied, original: string, skins: seq<string>, now: nat)
    requires WellFormed(t)
    requires original != "" && original != login && original in t.accounts && login !in t.accounts
    ensures var r := AddAccount(t, login, s, original, Some(skins), now).value;
      |r.accounts| == |t.accounts| && r.accounts[login].displayOrder == |r.accounts| + 1
  {
    var p := Pop(t, original);
    assert login !in p.accounts;
    assert |p.accounts[login := NewRecord(s, skins, |t.accounts| + 1, now).(steamUser := None)]| == |p.accounts| + 1;
  }

  /** Deleting a freshly added account restores the table exactly. */
  lemma {:induction false} DeleteUndoesAdd(t: Table, login: string, s: Supplied, skins: seq<string>, now: nat)
    requires WellFormed(t) && login !in t.accounts
    ensures AddAccount(t, login, s, "", Some(skins), now).Success?
    ensures DeleteAccount(AddAccount(t, login, s, "", Some(skins), now).value, login) == Success(t)
  {
    var rec := NewRecord(s, skins, |t.accounts| + 1, now);
    assert AddAccount(t, login, s, "", Some(skins), now) == Success(Put(t, login, rec));
    PopPut(t, login, rec);
  }

  /** Popping a name just put under a new key gives the table back. */
  lemma PopPut(t: Table, login: string, rec: Account)
    requires WellFormed(t) && login !in t.accounts
    ensures login in Put(t, login, rec).accounts
    ensures Pop(Put(t, login, rec), login) == t
  {
    var r := Put(t, login, rec);
    assert Without(r.order, login) == t.order by {
      WithoutAppend(t.order, login);
    }
    assert r.accounts - {login} == t.accounts;
  }

  lemma {:induction false} WithoutAppend(s: seq<string>, x: string)
    requires x !in s
    ensures Without(s + [x], x) == s
  {
    if s == [] {
      assert Without([x], x) == [] + Without([], x);
    } else {
      assert (s + [x])[1..] == s[1..] + [x];
      WithoutAppend(s[1..], x);
      assert [s[0]] + s[1..] == s;
    }
  }

  /** Display orders are not renumbered: when `y` holds the largest order
      (the table size, as the last account added to a table that never lost
      one does), deleting another account `x` and adding a new one `z` gives
      `z` the same order as `y`. */
  lemma DisplayOrdersCanCollide(t: Table, x: string, y: string, z: string, s: Supplied, skins: seq<string>, now: nat)
    requires WellFormed(t) && x in t.accounts && y in t.accounts && x != y && z !in t.accounts
    requires t.accounts[y].displayOrder == |t.accounts|
    ensures DeleteAccount(t, x).Success?
    ensures var r := AddAccount(DeleteAccount(t, x).value, z, s, "", Some(skins), now);
      && r.Success?
      && y in r.value.accounts && z in r.value.accounts && y != z
      && r.value.accounts[z].displayOrder == r.value.accounts[y].displayOrder
  {
    var d := Pop(t, x);
    assert DeleteAccount(t, x) == Success(d);
    assert d.accounts[y] == t.accounts[y];
    var rec := NewRecord(s, skins, |d.accounts| + 1, now);
    assert AddAccount(d, z, s, "", Some(skins), now) == Success(Put(d, z, rec));
  }

  /** Editing an account under its own name with the fields the edit dialog
      passes back keeps its comment as typed, its timestamp, uid and summary,
      and its place in the order; its skin is kept when known. An account
      without a summary (renamed earlier) gets the empty summary `{}`. */
  lemma EditKeepsIdentity(t: Table, login: string, comment: string, skin: string, skins: seq<string>, now: nat)
    requires WellFormed(t) && login in t.accounts
    requires t.accounts[login].timestamp != ""
    ensures var a := t.accounts[login];
      var r := AddAccount(t, login, EditedFields(a, comment, skin), "", Some(skins), now);
      && r.Success?
      && r.value.order == t.order
      && r.value.accounts[login].comment == comment
      && r.value.accounts[login].timestamp == a.timestamp
      && r.value.accounts[login].steamUid == a.steamUid
      && (a.steamUser.Some? ==> r.value.accounts[login].steamUser == a.steamUser)
      && (a.steamUser.None? ==> r.value.accounts[login].steamUser == Some(map[]))
      && (skin in skins ==> r.value.accounts[login].steamSkin == skin)
  {
  }

  /** With the list `get_steam_skins` builds, every record `add_account`
      stores has a skin from that list, so the invariant is kept. */
  lemma AddKeepsSkinsKnown(t: Table, login: string, s: Supplied, original: string, dirs: seq<string>, now: nat)
    requires WellFormed(t)
    requires SkinsKnown(t.accounts, GetSteamSkins(Some(dirs)).value)
    ensures var r := AddAccount(t, login, s, original, GetSteamSkins(Some(dirs)), now);
      r.Success? ==> SkinsKnown(r.value.accounts, GetSteamSkins(Some(dirs)).value)
  {
    var skins := GetSteamSkins(Some(dirs)).value;
    assert "default" in skins by { assert skins[0] == "default"; }
    var rec := NewRecord(s, skins, |t.accounts| + 1, now);
    assert rec.steamSkin in skins;
    var r := AddAccount(t, login, s, original, Some(skins), now);
    if r.Success? {
      var base := if original != "" && login != original then Pop(t, original) else t;
      assert SkinsKnown(base.accounts, skins) by {
        forall n | n in base.accounts ensures base.accounts[n].steamSkin in skins {
          assert n in t.accounts && base.accounts[n] == t.accounts[n];
        }
      }
      assert r.value.accounts[login].steamSkin == rec.steamSkin;
      forall n | n in r.value.accounts ensures r.value.accounts[n].steamSkin in skins {
        if n != login {
          assert n in base.accounts && r.value.accounts[n] == base.accounts[n];
        }
      }
    }
  }
}
