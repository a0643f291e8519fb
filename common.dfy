/** Values shared by every part of the switcher model: optional values, the
    outcome of an operation that can raise, the exceptions the switcher lets
    escape, and the decimal rendering `str(int(time.time()))` of a clock reading. */
module Common {

  datatype Option<+T> = None | Some(value: T)

  /** The exceptions that escape from the switcher's operations. */
  datatype Error =
    | NoSuchAccount(name: string)          // KeyError from `users.pop(name)`
    | SkinsUnavailable                     // `steam_skins` is None: the skins directory was missing
    | LoginUsersUnavailable                // `load_loginusers()` returned None
    | NotASteamId(uid: string)             // the uid check in `update_steamuids`
    | NoApiKey                             // "No steam_api_key defined"
    | SummaryDownloadFailed                // "ERROR: downloading usersummaries"
    | PlayerWithoutSteamId                 // KeyError on `steam_user["steamid"]`
    | NoAccountForPlayer                   // IndexError: `[...][0]` on an empty list
    | AvatarRequestFailed                  // `requests.get` raised (no URL, or unreachable)
    | KillDenied                           // PermissionError while stopping the Steam client

  datatype Result<+T> = Success(value: T) | Failure(error: Error)

  /** The outcome of an operation that returns nothing. */
  datatype Outcome = Pass | Fail(error: Error)

  predicate IsDigit(c: char) {
    '0' <= c <= '9'
  }

  /** `str.isnumeric()` restricted to ASCII digits: false on the empty string. */
  predicate IsNumeric(s: string) {
    |s| > 0 && forall i :: 0 <= i < |s| ==> IsDigit(s[i])
  }

  function DigitChar(d: nat): (c: char)
    requires d < 10
    ensures IsDigit(c) && c as int - '0' as int == d
  {
    ['0', '1', '2', '3', '4', '5', '6', '7', '8', '9'][d]
  }

  /** `str(n)` for a natural number n: the digits of n, most significant first. */
  function Decimal(n: nat): (s: string)
    ensures IsNumeric(s)
    decreases n
  {
    if n < 10 then [DigitChar(n)] else Decimal(n / 10) + [DigitChar(n % 10)]
  }

  /** `int(s)` for a string of decimal digits. */
  function DecimalValue(s: string): (n: nat)
    requires forall i :: 0 <= i < |s| ==> IsDigit(s[i])
  {
    if s == [] then 0
    else
      assert IsDigit(s[|s| - 1]);
      10 * DecimalValue(s[..|s| - 1]) + (s[|s| - 1] as int - '0' as int)
  }

  /** `int(str(n)) == n`: the rendering of a clock reading loses nothing. */
  lemma {:induction false} DecimalRoundTrip(n: nat)
    ensures DecimalValue(Decimal(n)) == n
    decreases n
  {
    var s := Decimal(n);
    if n >= 10 {
      DecimalRoundTrip(n / 10);
      assert s[..|s| - 1] == Decimal(n / 10);
    }
  }
}
