/** The server action `loginUser` of lib/actions/loginUser.ts. The signed token is
    represented by the claims it carries and its lifetime; signing and the cookie store
    are foreign. `lookupThrows` stands for a rejection of the store read and
    `cookieThrows` for one of the cookie store; the action turns either into its
    internal-error answer, but only a run that reaches the call can meet it. */
module LoginUser {
  import opened Wrappers
  import UserModel
  import LoginActions

  const FIELDS_REQUIRED: string := "Email y contraseña son requeridos"
  const INVALID_CREDENTIALS: string := "Credenciales inválidas"
  const INTERNAL_ERROR: string := "Error interno del servidor"

  /** The cookie name `checkAuthStatus` and `getAuthenticatedUser` read as well. */
  const AUTH_COOKIE: string := "authToken"

  /** `expiresIn: "7d"` of the token and `maxAge: 60 * 60 * 24 * 7` of the cookie, in seconds. */
  const SEVEN_DAYS: nat := 7 * 24 * 60 * 60

  /** `jwt.sign(payload, secret, { expiresIn: "7d" })`. */
  datatype Token = Jwt(claims: UserModel.PublicUser, lifetime: nat)

  datatype Cookie = Cookie(name: string, value: Token, httpOnly: bool, secure: bool, maxAge: nat,
                           path: string)

  datatype LoginUserAnswer = LoggedIn(user: UserModel.PublicUser, cookie: Cookie)
                           | Refused(message: string)

  /** `generateToken`: the user's id, email and name, valid for seven days. */
  function GenerateToken(user: UserModel.PublicUser): Token {
    Jwt(user, SEVEN_DAYS)
  }

  /** `loginUser`: a missing field is refused before any call; then an unknown email and
      a wrong password are refused with one message; valid credentials set the auth
      cookie and answer the user without the password. A rejection of the store read or
      of the cookie store, each reached only on its own path, answers the internal error. */
  function LoginUser(table: UserModel.Table, email: Option<string>, password: Option<string>,
                     production: bool, lookupThrows: bool, cookieThrows: bool)
    : (r: LoginUserAnswer)
    ensures !(LoginActions.Filled(email) && LoginActions.Filled(password)) ==> r == Refused(FIELDS_REQUIRED)
    ensures LoginActions.Filled(email) && LoginActions.Filled(password) && lookupThrows ==>
      r == Refused(INTERNAL_ERROR)
    ensures LoginActions.Filled(email) && LoginActions.Filled(password) && !lookupThrows ==>
      var user := UserModel.GetUserByEmail(table, email.value);
      var accepted := user.Some? && UserModel.VerifyPassword(password.value, user.value.password);
      && (r.LoggedIn? <==> accepted && !cookieThrows)
      && (!accepted ==> r == Refused(INVALID_CREDENTIALS))
      && (accepted && cookieThrows ==> r == Refused(INTERNAL_ERROR))
      && (r.LoggedIn? ==> r.user == UserModel.PublicUser(user.value.id, user.value.email, user.value.name))
    ensures r.LoggedIn? ==>
      && r.cookie.name == AUTH_COOKIE && r.cookie.value.claims == r.user
      && r.cookie.httpOnly && r.cookie.secure == production && r.cookie.path == "/"
      && r.cookie.maxAge == r.cookie.value.lifetime == 604800
  {
    if !LoginActions.Filled(email) || !LoginActions.Filled(password) then Refused(FIELDS_REQUIRED)
    else if lookupThrows then Refused(INTERNAL_ERROR)
    else match UserModel.GetUserByEmail(table, email.value)
      case None => Refused(INVALID_CREDENTIALS)
      case Some(user) =>
        if !UserModel.VerifyPassword(password.value, user.password) then Refused(INVALID_CREDENTIALS)
        else if cookieThrows then Refused(INTERNAL_ERROR)
        else
          var userData := UserModel.PublicUser(user.id, user.email, user.name);
          LoggedIn(userData, Cookie(AUTH_COOKIE, GenerateToken(userData), true, production, 60 * 60 * 24 * 7, "/"))
  }
}
