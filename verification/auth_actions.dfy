/** `checkAuthStatus` and `getAuthenticatedUser` of lib/actions/auth.ts, with the token
    lookup of lib/getUser.ts they rely on. The cookie jar is a map from names to tokens;
    `verified` says whether `jwt.verify` accepts the token (right signature, not
    expired), and `throws` whether reading the cookie store rejects. */
module AuthActions {
  import opened Wrappers
  import opened Schema
  import UserModel
  import LoginUser

  const AUTH_ERROR: string := "Error checking authentication"

  /** `getUserFromToken`: the user the token's id names, or null when the token does not
      verify, carries no id, or names no user. */
  function GetUserFromToken(table: UserModel.Table, token: LoginUser.Token, verified: bool): (r: Option<User>)
    ensures r.Some? ==> verified && token.claims.id != "" && r.value.id == token.claims.id
    ensures verified && token.claims.id != "" ==> r == UserModel.GetUserById(table, token.claims.id)
  {
    if !verified || token.claims.id == "" then None
    else UserModel.GetUserById(table, token.claims.id)
  }

  /** The user object `checkAuthStatus` reports. */
  datatype AuthUser = AuthUser(id: string, email: string, name: string, timezone: string)

  datatype AuthStatus = AuthStatus(success: bool, authenticated: bool, user: Option<AuthUser>,
                                   error: Option<string>)

  const SIGNED_OUT: AuthStatus := AuthStatus(true, false, None, None)

  /** `checkAuthStatus`: always `success: true`; authenticated exactly when the auth cookie
      holds a token that resolves to a user, whose timezone falls back to the default
      when falsy. */
  function CheckAuthStatus(jar: map<string, LoginUser.Token>, table: UserModel.Table, verified: bool,
                           throws: bool)
    : (r: AuthStatus)
    ensures r.success
    ensures throws ==> r == AuthStatus(true, false, None, Some(AUTH_ERROR))
    ensures !throws && LoginUser.AUTH_COOKIE !in jar ==> r == SIGNED_OUT
    ensures r.authenticated <==> r.user.Some?
    ensures r.authenticated <==>
      !throws && LoginUser.AUTH_COOKIE in jar
      && GetUserFromToken(table, jar[LoginUser.AUTH_COOKIE], verified).Some?
    ensures r.authenticated ==>
      var u := GetUserFromToken(table, jar[LoginUser.AUTH_COOKIE], verified).value;
      && r.user.value.id == u.id && r.user.value.email == u.email && r.user.value.name == u.name
      && (r.user.value.timezone == if Truthy(u.timezone) then u.timezone.value
                                   else UserModel.DEFAULT_TIMEZONE)
    ensures !r.authenticated && !throws ==> r == SIGNED_OUT
  {
    if throws then AuthStatus(true, false, None, Some(AUTH_ERROR))
    else if LoginUser.AUTH_COOKIE !in jar then SIGNED_OUT
    else match GetUserFromToken(table, jar[LoginUser.AUTH_COOKIE], verified)
      case None => SIGNED_OUT
      case Some(u) =>
        var zone := if Truthy(u.timezone) then u.timezone.value else UserModel.DEFAULT_TIMEZONE;
        AuthStatus(true, true, Some(AuthUser(u.id, u.email, u.name, zone)), None)
  }

  /** `getUserById` selects no timezone column, so every authenticated status reports the
      default zone, whatever the user's stored timezone is. */
  lemma AlwaysDefaultZone(jar: map<string, LoginUser.Token>, table: UserModel.Table, verified: bool,
                          throws: bool)
    ensures var r := CheckAuthStatus(jar, table, verified, throws);
      r.authenticated ==> r.user.value.timezone == UserModel.DEFAULT_TIMEZONE
  {
  }

  /** `getAuthenticatedUser`: the user of the auth cookie's token, or null. */
  function GetAuthenticatedUser(jar: map<string, LoginUser.Token>, table: UserModel.Table, verified: bool)
    : (r: Option<User>)
    ensures LoginUser.AUTH_COOKIE !in jar ==> r.None?
    ensures LoginUser.AUTH_COOKIE in jar ==> r == GetUserFromToken(table, jar[LoginUser.AUTH_COOKIE], verified)
  {
    if LoginUser.AUTH_COOKIE !in jar then None
    else GetUserFromToken(table, jar[LoginUser.AUTH_COOKIE], verified)
  }

  /** The two actions agree: the status is authenticated exactly when there is an
      authenticated user, and then it reports that user. */
  lemma StatusAgreesWithUser(jar: map<string, LoginUser.Token>, table: UserModel.Table, verified: bool)
    ensures var r := CheckAuthStatus(jar, table, verified, false);
      var u := GetAuthenticatedUser(jar, table, verified);
      && (r.authenticated <==> u.Some?)
      && (u.Some? ==> r.user.value.id == u.value.id && r.user.value.email == u.value.email
                      && r.user.value.name == u.value.name)
  {
  }

  /** After `loginUser` sets its cookie, the status check reports that same user as
      authenticated, in the default zone, while the token verifies. User ids are uuids,
      never empty: a token with an empty id is not accepted. */
  lemma LoginThenAuthenticated(table: UserModel.Table, jar: map<string, LoginUser.Token>,
                               email: string, password: string, production: bool)
    requires UserModel.WellKeyed(table)
    requires forall i :: 0 <= i < |table| ==> table[i].id != ""
    requires LoginUser.LoginUser(table, Some(email), Some(password), production, false, false).LoggedIn?
    ensures var login := LoginUser.LoginUser(table, Some(email), Some(password), production, false, false);
      var jar' := jar[login.cookie.name := login.cookie.value];
      CheckAuthStatus(jar', table, true, false)
      == AuthStatus(true, true,
                    Some(AuthUser(login.user.id, login.user.email, login.user.name, UserModel.DEFAULT_TIMEZONE)),
                    None)
  {
    var login := LoginUser.LoginUser(table, Some(email), Some(password), production, false, false);
    var found := UserModel.GetUserByEmail(table, email).value;
    var i :| 0 <= i < |table| && found == UserModel.WithPassword(table[i]);
    UserModel.IdFindsRow(table, i);
    assert login.user == UserModel.PublicUser(table[i].id, table[i].email, table[i].name);
    var jar' := jar[login.cookie.name := login.cookie.value];
    assert jar'[LoginUser.AUTH_COOKIE].claims == login.user;
    assert GetUserFromToken(table, jar'[LoginUser.AUTH_COOKIE], true)
        == Some(User(table[i].id, table[i].email, table[i].name, None));
  }
}
