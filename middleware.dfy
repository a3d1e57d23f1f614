/**
 * The route access decision of the web front end (middleware.ts): which
 * requests pass, which go to the login page and which to the dashboard.
 */
module Middleware {
  import opened Wrappers

  /** `NextResponse.next()`, or a redirect to `/login` or to `/dashboard`. */
  datatype Decision = Next | RedirectToLogin | RedirectToDashboard

  /**
   * What decoding the token's payload yields: a failure (splitting, base64 or
   * JSON decoding throws, or the payload is `null`, so reading its role
   * throws), or any other value as claims, whose role is None when the value
   * has no truthy role.
   */
  datatype Payload = Undecodable | Claims(role: Option<string>)

  const PublicRoutes: seq<string> := ["/", "/login", "/register"]

  predicate StartsWith(s: string, prefix: string) {
    |prefix| <= |s| && s[..|prefix|] == prefix
  }

  /** The pathname with one trailing slash removed; `/` stays `/`. */
  function Normalize(pathname: string): (r: string)
    ensures pathname == "/" ==> r == "/"
    ensures pathname != "/" && |pathname| > 0 && pathname[|pathname| - 1] == '/' ==> r + "/" == pathname
    ensures (|pathname| == 0 || pathname[|pathname| - 1] != '/') ==> r == pathname
  {
    if pathname == "/" then "/"
    else if |pathname| > 0 && pathname[|pathname| - 1] == '/' then pathname[..|pathname| - 1]
    else pathname
  }

  /** The token counts as missing when there is no cookie or it is empty (JavaScript falsiness). */
  predicate TokenMissing(cookie: Option<string>) {
    cookie.None? || cookie.value == ""
  }

  /** The role the gates see: a missing or empty role counts as 'user'. */
  function EffectiveRole(role: Option<string>): string {
    if role.None? || role.value == "" then "user" else role.value
  }

  /** No path starts with two of the gated prefixes. */
  lemma GatesExclusive(p: string)
    ensures !(StartsWith(p, "/superadmin") && StartsWith(p, "/operator"))
    ensures !(StartsWith(p, "/superadmin") && StartsWith(p, "/account"))
    ensures !(StartsWith(p, "/operator") && StartsWith(p, "/account"))
  {
    if StartsWith(p, "/superadmin") { assert p[1] == 's'; }
    if StartsWith(p, "/operator") { assert p[1] == 'o'; }
    if StartsWith(p, "/account") { assert p[1] == 'a'; }
  }

  /**
   * `middleware(request)`: `pathname` is the request's path, `cookie` the
   * `token` cookie, and `payload` what decoding that cookie yields.
   */
  function Decide(pathname: string, cookie: Option<string>, payload: Payload): (d: Decision)
    ensures Normalize(pathname) in PublicRoutes ==> d == Next
    ensures Normalize(pathname) !in PublicRoutes && TokenMissing(cookie) ==> d == RedirectToLogin
    ensures Normalize(pathname) !in PublicRoutes && !TokenMissing(cookie) && payload.Undecodable? ==> d == RedirectToLogin
    ensures Normalize(pathname) !in PublicRoutes && !TokenMissing(cookie) && payload.Claims? ==>
      var role := EffectiveRole(payload.role);
      && d != RedirectToLogin
      && (StartsWith(pathname, "/superadmin") ==> (d == Next <==> role == "superadmin"))
      && (StartsWith(pathname, "/operator") ==> (d == Next <==> role in {"operator", "superadmin"}))
      && (StartsWith(pathname, "/account") ==> (d == Next <==> role in {"user", "operator", "superadmin"}))
      && ((!StartsWith(pathname, "/superadmin") && !StartsWith(pathname, "/operator") && !StartsWith(pathname, "/account"))
         ==> d == Next)
  {
    var normalized := Normalize(pathname);
    if normalized in PublicRoutes then Next
    // The redirect also requires the path not to be /login; that always holds here,
    // since /login is public and has passed above.
    else if TokenMissing(cookie) then RedirectToLogin
    else match payload
      case Undecodable => RedirectToLogin
      case Claims(role) =>
        GatesExclusive(pathname);
        var userRole := EffectiveRole(role);
        if StartsWith(pathname, "/superadmin") && userRole != "superadmin" then RedirectToDashboard
        else if StartsWith(pathname, "/operator") && userRole != "operator" && userRole != "superadmin" then RedirectToDashboard
        else if StartsWith(pathname, "/account") && userRole !in ["user", "operator", "superadmin"] then RedirectToDashboard
        else Next
  }

  /**
   * The raw paths that pass as public: `/`, `/login` and `/register`, each
   * also with one trailing slash (`//` normalizes to `/`).
   */
  lemma {:induction false} PublicPathsExactly(pathname: string)
    ensures Normalize(pathname) in PublicRoutes
        <==> pathname in ["/", "//", "/login", "/login/", "/register", "/register/"]
  {
    var n := Normalize(pathname);
    if pathname != "/" && |pathname| > 0 && pathname[|pathname| - 1] == '/' {
      assert pathname == n + "/";
      if n == "/login" { assert pathname == "/login/"; }
      if n == "/register" { assert pathname == "/register/"; }
      if n == "/" { assert pathname == "//"; }
      if pathname == "/login/" { assert n == "/login"; }
      if pathname == "/register/" { assert n == "/register"; }
      if pathname == "//" { assert n == "/"; }
    }
  }

  /** A missing role, and an empty one, are decided exactly like the role 'user'. */
  lemma MissingRoleIsUser(pathname: string, cookie: Option<string>)
    ensures Decide(pathname, cookie, Claims(None)) == Decide(pathname, cookie, Claims(Some("user")))
    ensures Decide(pathname, cookie, Claims(Some(""))) == Decide(pathname, cookie, Claims(Some("user")))
  {
  }

  /** A request passes a non-public path only with a present token that decodes. */
  lemma PassingNeedsAuthentication(pathname: string, cookie: Option<string>, payload: Payload)
    requires Normalize(pathname) !in PublicRoutes
    requires Decide(pathname, cookie, payload) == Next
    ensures !TokenMissing(cookie) && payload.Claims?
  {
  }

  /**
   * Only a superadmin reaches `/superadmin…`; a plain user reaches neither
   * `/superadmin…` nor `/operator…`, and is redirected to the dashboard.
   */
  lemma AdminAreasClosedToUsers(pathname: string, cookie: Option<string>, role: Option<string>)
    requires !TokenMissing(cookie)
    requires StartsWith(pathname, "/superadmin") || StartsWith(pathname, "/operator")
    requires EffectiveRole(role) == "user"
    ensures Decide(pathname, cookie, Claims(role)) == RedirectToDashboard
  {
    PublicPathsExactly(pathname);
    assert pathname[1] == 's' || pathname[1] == 'o';
  }
}
