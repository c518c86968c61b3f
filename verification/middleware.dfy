/** The route guard of middleware.ts. `decrypt` (lib/auth/session.ts, not part of this
    model) is a parameter; the run records whether it was called. */
module Middleware {
  import opened Wrappers

  const PROTECTED_ROUTES: seq<string> := ["/"]
  const PUBLIC_ROUTES: seq<string> := ["/login", "/signup"]

  /** `SessionPayload.userId: string | number`. */
  datatype SessionUserId = TextId(text: string) | NumberId(number: int)

  datatype SessionPayload = SessionPayload(userId: SessionUserId, expiresAt: int)

  /** `session?.userId` is truthy. */
  predicate SignedIn(session: Option<SessionPayload>) {
    session.Some? &&
    match session.value.userId
    case TextId(t) => t != ""
    case NumberId(n) => n != 0
  }

  datatype Response = RedirectTo(location: string) | PassThrough

  datatype Run = Run(response: Response, decrypted: bool)

  /** `pathname.startsWith(prefix)`. */
  predicate StartsWith(s: string, prefix: string) {
    |prefix| <= |s| && s[..|prefix|] == prefix
  }

  /** The session the guard sees: `decrypt` is called only on a truthy cookie. */
  function ReadSession(sessionCookie: Option<string>, decrypt: string -> Option<SessionPayload>)
    : (r: (Option<SessionPayload>, bool))
    ensures r.1 <==> sessionCookie.Some? && sessionCookie.value != ""
    ensures !r.1 ==> r.0.None?
    ensures r.1 ==> r.0 == decrypt(sessionCookie.value)
  {
    if sessionCookie.Some? && sessionCookie.value != "" then (decrypt(sessionCookie.value), true)
    else (None, false)
  }

  /** `middleware` as written: the redirect of a signed-in user away from a public route
      also demands that the path not start with "/". */
  function Guard(path: string, sessionCookie: Option<string>, decrypt: string -> Option<SessionPayload>)
    : (r: Run)
    ensures r.decrypted == ReadSession(sessionCookie, decrypt).1
    ensures r.response == RedirectTo("/login")
            <==> path in PROTECTED_ROUTES && !SignedIn(ReadSession(sessionCookie, decrypt).0)
    ensures r.response != RedirectTo("/login") ==> r.response == PassThrough
  {
    var (session, decrypted) := ReadSession(sessionCookie, decrypt);
    var isProtected := path in PROTECTED_ROUTES;
    var isPublic := path in PUBLIC_ROUTES;
    if isProtected && !SignedIn(session) then Run(RedirectTo("/login"), decrypted)
    else if isPublic && SignedIn(session) && !StartsWith(path, "/") then Run(RedirectTo("/"), decrypted)
    else Run(PassThrough, decrypted)
  }

  /** Every public route starts with "/", so the second redirect never happens: a
      signed-in user who opens "/login" or "/signup" stays there. */
  lemma SignedInStaysOnPublicRoute(path: string, sessionCookie: Option<string>,
                                   decrypt: string -> Option<SessionPayload>)
    requires path in PUBLIC_ROUTES
    ensures Guard(path, sessionCookie, decrypt).response == PassThrough
  {
    assert StartsWith(path, "/");
  }

  /** The guard as evidently intended: a signed-in user on a public route is sent to "/". */
  function IntendedGuard(path: string, sessionCookie: Option<string>,
                         decrypt: string -> Option<SessionPayload>)
    : (r: Run)
    ensures r.decrypted == ReadSession(sessionCookie, decrypt).1
    ensures var signedIn := SignedIn(ReadSession(sessionCookie, decrypt).0);
      && (r.response == RedirectTo("/login") <==> path in PROTECTED_ROUTES && !signedIn)
      && (r.response == RedirectTo("/") <==> path in PUBLIC_ROUTES && signedIn)
      && (r.response == PassThrough <==> !(path in PROTECTED_ROUTES && !signedIn)
                                         && !(path in PUBLIC_ROUTES && signedIn))
  {
    var (session, decrypted) := ReadSession(sessionCookie, decrypt);
    if path in PROTECTED_ROUTES && !SignedIn(session) then Run(RedirectTo("/login"), decrypted)
    else if path in PUBLIC_ROUTES && SignedIn(session) then Run(RedirectTo("/"), decrypted)
    else Run(PassThrough, decrypted)
  }

  /** The intended guard never loops: a redirect always leads to a route the same session
      is let through on. */
  lemma IntendedRedirectSettles(path: string, sessionCookie: Option<string>,
                                decrypt: string -> Option<SessionPayload>)
    ensures var r := IntendedGuard(path, sessionCookie, decrypt);
      r.response.RedirectTo? ==>
        && r.response.location != path
        && IntendedGuard(r.response.location, sessionCookie, decrypt).response == PassThrough
  {
  }

  /** The two guards differ only on a signed-in user's visit to a public route. */
  lemma GuardsDifferOnlyThere(path: string, sessionCookie: Option<string>,
                              decrypt: string -> Option<SessionPayload>)
    ensures Guard(path, sessionCookie, decrypt) != IntendedGuard(path, sessionCookie, decrypt)
            <==> path in PUBLIC_ROUTES && SignedIn(ReadSession(sessionCookie, decrypt).0)
  {
    if path in PUBLIC_ROUTES {
      assert StartsWith(path, "/");
    }
  }
}
