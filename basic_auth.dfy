/** The two HTTP Basic authentication middlewares (RFC 7617 section 2):
    the secured file server's (mechs/serverSec.js) and the system
    monitor's `ensurePassword` (mechs/sysmon/sysmon.js). Both take the
    second space-separated piece of the `Authorization` header without
    looking at the scheme word, base64-decode it, split the result at `:`
    and compare the second piece with the stored password; the user name
    is never looked at. */
module BasicAuth {
  import opened Wrappers
  import opened Text
  import opened Http

  const SecuredChallenge: string := "Basic realm=\"Authorization Required\""
  const MonitorChallenge: string := "Basic realm=\"Enter password for system monitor\""

  /** What the middleware extracts from a present header: `NoToken` when
      the header has no second space-separated piece, so that
      `Buffer.from(undefined, 'base64')` throws; otherwise the second
      `:`-separated piece of the decoded credential, `None` when there is
      no `:`. */
  datatype Credential = NoToken | Field(password: Option<string>)

  /** `decode` stands for `Buffer.from(token, 'base64').toString()`. */
  function CredentialOf(header: string, decode: string -> string): (c: Credential)
    ensures c == NoToken <==> ' ' !in header
  {
    var pieces := SplitOn(header, ' ');
    SplitOnJoin(header, ' ');
    if |pieces| < 2 then NoToken
    else Field(At(SplitOn(decode(pieces[1]), ':'), 1))
  }

  /** The secured file server's middleware: no (or an empty) header gets
      401 with a challenge; a password that does not match gets 403 with no
      challenge. */
  function SecuredGate(password: string, header: Option<string>, decode: string -> string): (g: Gate)
    ensures g == Deny(Reply(401, Some(SecuredChallenge), "Authorization Required")) <==> !Truthy(header)
    ensures g == Next <==> Truthy(header) && CredentialOf(header.value, decode) == Field(Some(password))
    ensures g == Deny(Reply(403, None, "Forbidden")) <==>
      Truthy(header) && CredentialOf(header.value, decode).Field?
      && CredentialOf(header.value, decode) != Field(Some(password))
    ensures g.Deny? && g.response.Thrown? <==> Truthy(header) && CredentialOf(header.value, decode) == NoToken
  {
    if !Truthy(header) then Deny(Reply(401, Some(SecuredChallenge), "Authorization Required"))
    else
      match CredentialOf(header.value, decode)
      case NoToken => Deny(Thrown("Buffer.from(undefined)"))
      case Field(provided) =>
        if provided == Some(password) then Next else Deny(Reply(403, None, "Forbidden"))
  }

  /** `ensurePassword(expected)`: like the secured gate, except that a
      wrong password gets 401 with the challenge again, and the expected
      password may itself be `undefined`. */
  function MonitorGate(expected: Option<string>, header: Option<string>, decode: string -> string): (g: Gate)
    ensures g == Deny(Reply(401, Some(MonitorChallenge), "Authentication required")) <==> !Truthy(header)
    ensures g == Next <==> Truthy(header) && CredentialOf(header.value, decode) == Field(expected)
    ensures g == Deny(Reply(401, Some(MonitorChallenge), "Authentication failed")) <==>
      Truthy(header) && CredentialOf(header.value, decode).Field?
      && CredentialOf(header.value, decode) != Field(expected)
    ensures g.Deny? && g.response.Thrown? <==> Truthy(header) && CredentialOf(header.value, decode) == NoToken
  {
    if !Truthy(header) then Deny(Reply(401, Some(MonitorChallenge), "Authentication required"))
    else
      match CredentialOf(header.value, decode)
      case NoToken => Deny(Thrown("Buffer.from(undefined)"))
      case Field(provided) =>
        if provided != expected then Deny(Reply(401, Some(MonitorChallenge), "Authentication failed"))
        else Next
  }

  // ----- properties -----

  /** The header `<scheme> <token>` yields the second `:`-piece of the
      decoded token, whatever the scheme word is. */
  lemma HeaderToken(scheme: string, token: string, decode: string -> string)
    requires ' ' !in scheme && ' ' !in token
    ensures CredentialOf(scheme + " " + token, decode) == Field(At(SplitOn(decode(token), ':'), 1))
  {
    SplitOnConcat(scheme, token, ' ');
    assert SplitOn(scheme, ' ') == [scheme] by { assert Find(scheme, ' ') == |scheme|; }
    assert SplitOn(token, ' ') == [token] by { assert Find(token, ' ') == |token|; }
  }

  /** A piece with no `:` splits into itself. */
  lemma NoColonSplit(s: string)
    requires ':' !in s
    ensures SplitOn(s, ':') == [s]
  {
    assert Find(s, ':') == |s|;
  }

  /** In `user:pw` and `user:pw:rest` the second `:`-piece is `pw`. */
  lemma SecondPiece(user: string, pw: string, rest: string)
    requires ':' !in user && ':' !in pw
    ensures At(SplitOn(user + ":" + pw, ':'), 1) == Some(pw)
    ensures At(SplitOn(user + ":" + pw + ":" + rest, ':'), 1) == Some(pw)
  {
    NoColonSplit(user);
    NoColonSplit(pw);
    assert SplitOn(user + ":" + pw, ':') == [user, pw] by {
      assert user + ":" + pw == user + [':'] + pw;
      SplitOnConcat(user, pw, ':');
    }
    assert SplitOn(user + ":" + pw + ":" + rest, ':') == [user] + SplitOn(pw + [':'] + rest, ':') by {
      assert user + ":" + pw + ":" + rest == user + [':'] + (pw + [':'] + rest);
      SplitOnConcat(user, pw + [':'] + rest, ':');
    }
    assert SplitOn(pw + [':'] + rest, ':')[0] == pw by {
      SplitOnConcat(pw, rest, ':');
    }
  }

  /** Any user name with the right password passes the secured gate, and
      anything after a second `:` is ignored. */
  lemma {:induction false} AnyUserPasses(password: string, scheme: string, token: string,
                                         decode: string -> string, user: string, extra: Option<string>)
    requires ' ' !in scheme && ' ' !in token
    requires ':' !in user && ':' !in password
    requires decode(token) == (if extra.Some? then user + ":" + password + ":" + extra.value
                               else user + ":" + password)
    ensures SecuredGate(password, Some(scheme + " " + token), decode) == Next
  {
    HeaderToken(scheme, token, decode);
    SecondPiece(user, password, if extra.Some? then extra.value else "");
  }

  /** A wrong password is refused with 403 by the secured gate and with
      401 by the monitor gate. */
  lemma {:induction false} WrongPasswordRefused(password: string, scheme: string, token: string,
                                                decode: string -> string, user: string, given: string)
    requires ' ' !in scheme && ' ' !in token
    requires ':' !in user && ':' !in given && given != password
    requires decode(token) == user + ":" + given
    ensures SecuredGate(password, Some(scheme + " " + token), decode) == Deny(Reply(403, None, "Forbidden"))
    ensures MonitorGate(Some(password), Some(scheme + " " + token), decode)
            == Deny(Reply(401, Some(MonitorChallenge), "Authentication failed"))
  {
    HeaderToken(scheme, token, decode);
    SecondPiece(user, given, "");
  }

  /** A monitor started without a password admits every credential that
      has no `:`: both sides are `undefined`. */
  lemma {:induction false} MissingPasswordAdmits(scheme: string, token: string, decode: string -> string)
    requires ' ' !in scheme && ' ' !in token
    requires ':' !in decode(token)
    ensures MonitorGate(None, Some(scheme + " " + token), decode) == Next
  {
    HeaderToken(scheme, token, decode);
    NoColonSplit(decode(token));
  }
}
