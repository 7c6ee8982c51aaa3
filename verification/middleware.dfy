/** The access-control decision of middleware.js: given the session token
    (if any) and the request path, let the request through or redirect it. */
module Middleware {
  import opened Wrappers
  import opened Text

  /** A decoded session token; `role` is absent when the token carries none. */
  datatype Token = Token(role: Option<string>)

  datatype Decision = Pass | RedirectHome | RedirectLogin

  predicate IsAdmin(t: Token) {
    t.role == Some("ADMIN")
  }

  /** Paths an anonymous visitor may load: the auth API, framework assets
      and anything that looks like a file. */
  predicate PublicPath(path: string) {
    StartsWith(path, "/api/auth") || StartsWith(path, "/_next") || '.' in path
  }

  /** `middleware(req)` with the token already decoded. */
  function Decide(token: Option<Token>, path: string): (d: Decision)
    // The login page sends a signed-in user home and serves everyone else.
    ensures StartsWith(path, "/login") ==> (d == RedirectHome <==> token.Some?) && (d == Pass <==> token.None?)
    // Signed-in users are never sent to the login page.
    ensures token.Some? ==> d != RedirectLogin
    // Only a non-admin reaching for /admin, or a signed-in user on /login, is sent home.
    ensures d == RedirectHome <==>
              token.Some? && (StartsWith(path, "/login") || (StartsWith(path, "/admin") && !IsAdmin(token.value)))
    // Anonymous visitors are sent to /login exactly off the login page and public paths.
    ensures d == RedirectLogin <==> token.None? && !StartsWith(path, "/login") && !PublicPath(path)
  {
    if StartsWith(path, "/login") then
      if token.Some? then RedirectHome else Pass
    else if token.None? then
      if PublicPath(path) then Pass else RedirectLogin
    else if StartsWith(path, "/admin") && !IsAdmin(token.value) then
      RedirectHome
    else
      Pass
  }

  /** An administrator may go anywhere except the login page. */
  lemma AdminPassesEverywhereButLogin(path: string, role: Option<string>)
    requires role == Some("ADMIN")
    ensures Decide(Some(Token(role)), path) == Pass <==> !StartsWith(path, "/login")
  {
  }

  /** Without a token every `/admin` path is sent to the login page: `/admin`
      is not a public path unless it names a file. */
  lemma AnonymousAdminGoesToLogin(path: string)
    requires StartsWith(path, "/admin") && '.' !in path
    ensures Decide(None, path) == RedirectLogin
  {
    assert path[1] == "/admin"[1] && path[2] == "/admin"[2];
  }
}
