/**
 * The front end's request middleware (src/middleware.js): pages under the
 * protected prefixes need the `token` cookie and send the visitor to the
 * login page otherwise; a visitor who has the cookie is sent away from the
 * login page.
 */
module PageGuard {
  import opened Wrappers
  import opened Text

  /** What the middleware returns: a redirect to a path (with the `from`
      query parameter when it is set), or `NextResponse.next()`. */
  datatype Response = Redirect(path: string, from: Option<string>) | Next

  const AuthRequiredPaths: seq<string> := ["/admin", "/profile"]
  const LoginPath: string := "/auth/login"
  const HomePath: string := "/"

  /** `authRequiredPaths.some(path => pathname.startsWith(path))`: a test on
      the raw string, so "/administrator" is protected as well. */
  predicate RequiresAuth(pathname: string) {
    exists i :: 0 <= i < |AuthRequiredPaths| && StartsWith(pathname, AuthRequiredPaths[i])
  }

  /** A truthy cookie value: a missing cookie and an empty one are alike. */
  predicate HasToken(token: Option<string>) {
    token.Some? && token.value != ""
  }

  /** `middleware(request)`, given the pathname and the `token` cookie. */
  function Middleware(pathname: string, token: Option<string>): Response {
    if RequiresAuth(pathname) && !HasToken(token) then Redirect(LoginPath, Some(pathname))
    else if StartsWith(pathname, LoginPath) && HasToken(token) then Redirect(HomePath, None)
    else Next
  }

  lemma RequiresAuthPrefixes(pathname: string)
    ensures RequiresAuth(pathname) <==> StartsWith(pathname, "/admin") || StartsWith(pathname, "/profile")
  {
    if StartsWith(pathname, "/admin") {
      assert StartsWith(pathname, AuthRequiredPaths[0]);
    }
    if StartsWith(pathname, "/profile") {
      assert StartsWith(pathname, AuthRequiredPaths[1]);
    }
  }

  /** No path is both protected and the login page. */
  lemma LoginIsNotProtected(pathname: string)
    requires StartsWith(pathname, LoginPath)
    ensures !RequiresAuth(pathname)
  {
    RequiresAuthPrefixes(pathname);
    assert pathname[1] == 'a' && pathname[2] == 'u';
  }

  /** The three outcomes and exactly when each occurs: a protected path
      without a token goes to the login page with `from` set to the path; the
      login page with a token goes home; everything else passes through. */
  lemma MiddlewareCases(pathname: string, token: Option<string>)
    ensures var r := Middleware(pathname, token);
      && (r == Redirect(LoginPath, Some(pathname)) <==>
            (StartsWith(pathname, "/admin") || StartsWith(pathname, "/profile")) && !HasToken(token))
      && (r == Redirect(HomePath, None) <==> StartsWith(pathname, LoginPath) && HasToken(token))
      && (r == Next <==>
            && (StartsWith(pathname, "/admin") || StartsWith(pathname, "/profile") ==> HasToken(token))
            && (StartsWith(pathname, LoginPath) ==> !HasToken(token)))
  {
    RequiresAuthPrefixes(pathname);
    if StartsWith(pathname, LoginPath) {
      LoginIsNotProtected(pathname);
    }
  }

  /** Because the prefix test is on the raw string, the guard function
      would redirect "/administrator" too; the route matcher, which is not
      part of this model, keeps the middleware from running there. */
  lemma AdministratorIsProtected(token: Option<string>)
    requires !HasToken(token)
    ensures Middleware("/administrator", token) == Redirect(LoginPath, Some("/administrator"))
  {
    assert StartsWith("/administrator", AuthRequiredPaths[0]);
  }

  /** An empty cookie value counts as no token. */
  lemma EmptyCookieIsNoToken(pathname: string)
    ensures Middleware(pathname, Some("")) == Middleware(pathname, None)
  {
  }

  /** Following a redirect never redirects again: the login page admits a
      visitor without a token and the home page admits everyone. */
  lemma NoRedirectLoop(pathname: string, token: Option<string>)
    ensures Middleware(pathname, token).Redirect? ==>
      Middleware(Middleware(pathname, token).path, token) == Next
  {
    var r := Middleware(pathname, token);
    if r.Redirect? {
      if r.path == LoginPath {
        LoginIsNotProtected(LoginPath);
        assert !HasToken(token);
      } else {
        RequiresAuthPrefixes(HomePath);
        assert !StartsWith(HomePath, LoginPath);
      }
    }
  }
}
