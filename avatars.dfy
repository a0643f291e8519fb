/** Resolving accounts to avatar image paths (`get_steam_avatars`): a file
    name taken from the avatar URL, a cache of files under `avatars/`, a
    download when the file is missing, and the default avatar otherwise. The
    file system is the set of existing paths and the network maps a URL to the
    status code of its response (a URL absent from the map makes the request
    raise). */
module Avatars {
  import opened Common
  import opened Accounts

  /** `url.split("/")[-1]`: the text after the last '/', or all of it. */
  function LastSegment(url: string): (seg: string)
    ensures '/' !in seg
    ensures |seg| <= |url| && seg == url[|url| - |seg|..]
    ensures |seg| < |url| ==> url[|url| - |seg| - 1] == '/'
  {
    if url == [] then []
    else if url[|url| - 1] == '/' then []
    else LastSegment(url[..|url| - 1]) + [url[|url| - 1]]
  }

  /** `os.path.join(changer_path, "avatars", filename)` on a POSIX system. */
  function AvatarPath(changerPath: string, filename: string): string {
    changerPath + "/avatars/" + filename
  }

  /** `default_avatar`: `os.path.join(changer_path, "avatars/avatar.png")`. */
  function DefaultAvatar(changerPath: string): string {
    AvatarPath(changerPath, "avatar.png")
  }

  /** The file name used for a summary: the last URL segment of `avatarfull`,
      or "avatar.png" when the summary has no avatar URL. */
  function AvatarFile(s: Summary): string {
    if "avatarfull" in s then LastSegment(s["avatarfull"]) else "avatar.png"
  }

  /** The state of the loop: the result dict `r`, the files on disk, and
      whether an exception escaped. */
  datatype Resolution = Resolution(paths: map<string, string>, files: set<string>, failed: bool)

  /** One iteration of the loop over the requested names: it only touches the
      entry of `name`, never removes files, and raises only at a stored account
      with a summary. */
  function ResolveOne(accounts: map<string, Account>, changerPath: string, net: map<string, int>,
                      r: Resolution, name: string): (next: Resolution)
    ensures r.files <= next.files
    ensures r.failed ==> next == r
    ensures next.failed && !r.failed ==> name in accounts && accounts[name].steamUser.Some?
    ensures forall n :: n != name ==> (n in next.paths <==> n in r.paths)
    ensures forall n :: n != name && n in r.paths ==> next.paths[n] == r.paths[n]
  {
    if r.failed then r
    else if name !in accounts then WithPath(r, name, DefaultAvatar(changerPath))
    else match accounts[name].steamUser
      case None => r  // KeyError on "steam_user", caught: no entry for this name
      case Some(s) =>
        var path := AvatarPath(changerPath, AvatarFile(s));
        if path in r.files then WithPath(r, name, path)
        else if "avatarfull" !in s || s["avatarfull"] !in net then r.(failed := true)
        else if net[s["avatarfull"]] == 200 then WithPath(r, name, path).(files := r.files + {path})
        else WithPath(r, name, DefaultAvatar(changerPath))
  }

  /** `r[name] = path`: every other entry is kept. */
  function WithPath(r: Resolution, name: string, path: string): (next: Resolution)
    ensures next.files == r.files && next.failed == r.failed
    ensures name in next.paths && next.paths[name] == path
    ensures forall n :: n != name ==> (n in next.paths <==> n in r.paths)
    ensures forall n :: n != name && n in r.paths ==> next.paths[n] == r.paths[n]
  {
    r.(paths := r.paths[name := path])
  }

  /** The loop over `names`, in order, from the state `start`. */
  function ResolveAll(accounts: map<string, Account>, changerPath: string, net: map<string, int>,
                      start: Resolution, names: seq<string>): (r: Resolution)
    ensures start.files <= r.files
    ensures start.failed ==> r == start
    ensures forall n :: n in r.paths ==> n in start.paths || n in names
    decreases |names|
  {
    if names == [] then start
    else ResolveOne(accounts, changerPath, net, ResolveAll(accounts, changerPath, net, start, names[..|names| - 1]), names[|names| - 1])
  }

  /** The loop from an empty result and the files on disk: only requested
      names get a path, and no file is removed. */
  function Resolve(accounts: map<string, Account>, changerPath: string, net: map<string, int>,
                   files: set<string>, names: seq<string>): (r: Resolution)
    ensures files <= r.files
    ensures forall n :: n in r.paths ==> n in names
  {
    ResolveAll(accounts, changerPath, net, Resolution(map[], files, false), names)
  }

  /** The path a stored account with summary `s` may resolve to. */
  function PathFor(changerPath: string, s: Summary): string {
    AvatarPath(changerPath, AvatarFile(s))
  }

  /** Once the loop has failed on a prefix of the names, the rest of the
      names are not processed. */
  lemma {:induction false} ResolveFailureSticks(accounts: map<string, Account>, changerPath: string, net: map<string, int>,
                                                files: set<string>, names: seq<string>, k: nat)
    requires 0 < k <= |names|
    requires ResolveOne(accounts, changerPath, net, Resolve(accounts, changerPath, net, files, names[..k - 1]), names[k - 1]).failed
    ensures Resolve(accounts, changerPath, net, files, names) ==
      ResolveOne(accounts, changerPath, net, Resolve(accounts, changerPath, net, files, names[..k - 1]), names[k - 1])
    decreases |names| - k
  {
    if k < |names| {
      assert names[..|names| - 1][..k - 1] == names[..k - 1];
      ResolveFailureSticks(accounts, changerPath, net, files, names[..|names| - 1], k);
    } else {
      assert names[..k - 1] == names[..|names| - 1];
    }
  }

  /** The avatar URL of `s` answers 200. */
  predicate Fetched(s: Summary, net: map<string, int>) {
    "avatarfull" in s && s["avatarfull"] in net && net[s["avatarfull"]] == 200
  }

  /** The avatar URL of `s` answers with another status. */
  predicate Refused(s: Summary, net: map<string, int>) {
    "avatarfull" in s && s["avatarfull"] in net && net[s["avatarfull"]] != 200
  }

  /** Every key of the result is a requested name; names that are not stored
      map to the default avatar; stored names without `steam_user` are omitted. */
  lemma {:induction false} ResolveKeys(accounts: map<string, Account>, changerPath: string, net: map<string, int>,
                                       files: set<string>, names: seq<string>, name: string)
    ensures var r := Resolve(accounts, changerPath, net, files, names);
      && (name in r.paths ==> name in names)
      && (!r.failed && name in names && name !in accounts ==> name in r.paths && r.paths[name] == DefaultAvatar(changerPath))
      && (name in accounts && accounts[name].steamUser.None? ==> name !in r.paths)
    decreases |names|
  {
    if names != [] {
      var prefix := names[..|names| - 1];
      var last := names[|names| - 1];
      ResolveKeys(accounts, changerPath, net, files, prefix, name);
      var before := Resolve(accounts, changerPath, net, files, prefix);
      var r := ResolveOne(accounts, changerPath, net, before, last);
      assert r == Resolve(accounts, changerPath, net, files, names);
      if !r.failed && name in names && name !in accounts && name != last {
        assert name in prefix by {
          var i :| 0 <= i < |names| && names[i] == name;
          assert prefix[i] == name;
        }
      }
    }
  }

  /** A stored account with a summary resolves to its own avatar path when
      that file exists (a cache hit, needing no download) or when its URL
      answers 200 (the file is then downloaded); it resolves to the default
      avatar only when the URL answers another status, or when its own path is
      the default. Every returned path other than the default exists on disk
      afterwards. */
  lemma {:induction false} ResolveStored(accounts: map<string, Account>, changerPath: string, net: map<string, int>,
                                         files: set<string>, names: seq<string>, name: string)
    requires name in accounts && accounts[name].steamUser.Some?
    ensures var r := Resolve(accounts, changerPath, net, files, names);
      var s := accounts[name].steamUser.value;
      var path := PathFor(changerPath, s);
      && (name in r.paths ==> r.paths[name] == DefaultAvatar(changerPath) || (r.paths[name] == path && path in r.files))
      && (name in r.paths && r.paths[name] == DefaultAvatar(changerPath) ==> path == DefaultAvatar(changerPath) || Refused(s, net))
      && (!r.failed && name in names ==> name in r.paths)
      && (!r.failed && name in names && path in files ==> r.paths[name] == path)
      && (!r.failed && name in names && Fetched(s, net) ==> r.paths[name] == path)
    decreases |names|
  {
    if names != [] {
      var prefix := names[..|names| - 1];
      var last := names[|names| - 1];
      ResolveStored(accounts, changerPath, net, files, prefix, name);
      var before := Resolve(accounts, changerPath, net, files, prefix);
      var r := ResolveOne(accounts, changerPath, net, before, last);
      assert r == Resolve(accounts, changerPath, net, files, names);
      if last == name {
        ResolveOneSelf(accounts, changerPath, net, before, name);
      } else if !r.failed && name in names {
        assert name in prefix by {
          var i :| 0 <= i < |names| && names[i] == name;
          assert prefix[i] == name;
        }
      }
    }
  }

  /** One iteration on a stored name with a summary keeps what `ResolveStored`
      says about that name. */
  lemma ResolveOneSelf(accounts: map<string, Account>, changerPath: string, net: map<string, int>,
                       r: Resolution, name: string)
    requires name in accounts && accounts[name].steamUser.Some?
    requires var s := accounts[name].steamUser.value;
      var path := PathFor(changerPath, s);
      && (name in r.paths ==> r.paths[name] == DefaultAvatar(changerPath) || (r.paths[name] == path && path in r.files))
      && (name in r.paths && r.paths[name] == DefaultAvatar(changerPath) ==> path == DefaultAvatar(changerPath) || Refused(s, net))
    ensures var next := ResolveOne(accounts, changerPath, net, r, name);
      var s := accounts[name].steamUser.value;
      var path := PathFor(changerPath, s);
      && (!next.failed ==> name in next.paths)
      && (name in next.paths ==> next.paths[name] == DefaultAvatar(changerPath) || (next.paths[name] == path && path in next.files))
      && (name in next.paths && next.paths[name] == DefaultAvatar(changerPath) ==> path == DefaultAvatar(changerPath) || Refused(s, net))
      && (!next.failed && path in r.files ==> next.paths[name] == path)
      && (!next.failed && Fetched(s, net) ==> next.paths[name] == path)
  {
  }

  /** When every requested stored account's avatar file already exists, no
      download happens: the files are unchanged and nothing fails. */
  lemma {:induction false} AllCachedNoDownload(accounts: map<string, Account>, changerPath: string, net: map<string, int>,
                                               files: set<string>, names: seq<string>)
    requires forall i :: 0 <= i < |names| && names[i] in accounts && accounts[names[i]].steamUser.Some? ==>
      PathFor(changerPath, accounts[names[i]].steamUser.value) in files
    ensures Resolve(accounts, changerPath, net, files, names).files == files
    ensures !Resolve(accounts, changerPath, net, files, names).failed
    decreases |names|
  {
    if names != [] {
      var prefix := names[..|names| - 1];
      assert forall i :: 0 <= i < |prefix| ==> prefix[i] == names[i];
      AllCachedNoDownload(accounts, changerPath, net, files, prefix);
    }
  }

  /** The loop fails only at a stored account whose avatar file is missing and
      whose URL is absent or cannot be fetched. */
  lemma {:induction false} ResolveFailure(accounts: map<string, Account>, changerPath: string, net: map<string, int>,
                                          files: set<string>, names: seq<string>)
    requires Resolve(accounts, changerPath, net, files, names).failed
    ensures exists i ::
              && 0 <= i < |names| && names[i] in accounts && accounts[names[i]].steamUser.Some?
              && PathFor(changerPath, accounts[names[i]].steamUser.value) !in files
              && ("avatarfull" !in accounts[names[i]].steamUser.value
                  || accounts[names[i]].steamUser.value["avatarfull"] !in net)
    decreases |names|
  {
    var prefix := names[..|names| - 1];
    var before := Resolve(accounts, changerPath, net, files, prefix);
    if before.failed {
      ResolveFailure(accounts, changerPath, net, files, prefix);
      var i :| 0 <= i < |prefix| && prefix[i] in accounts && accounts[prefix[i]].steamUser.Some? &&
        PathFor(changerPath, accounts[prefix[i]].steamUser.value) !in files &&
        ("avatarfull" !in accounts[prefix[i]].steamUser.value || accounts[prefix[i]].steamUser.value["avatarfull"] !in net);
      assert names[i] == prefix[i];
    } else {
      assert names[|names| - 1] in accounts;
    }
  }
}
