/** The access gate that runs before the pages are served: from whether the
    request carries a session and the requested path, it lets the request
    through or redirects it. Fetching and refreshing the session is left to
    the caller, which passes in only whether one exists. */
module AccessGate {

  datatype Outcome = Pass | Redirect(location: string)

  const LoginPath: string := "/login"
  const HomePath: string := "/"

  /** JavaScript's `startsWith`: `prefix` is an initial segment of `s`. */
  predicate StartsWith(s: string, prefix: string) {
    prefix <= s
  }

  /** The gate's decision for a request it intercepts. Without a session,
      anything outside the login page is sent to log in; with a session, the
      login page is sent home; everything else passes. */
  function Decide(hasSession: bool, pathname: string): (o: Outcome)
    ensures o == Redirect(LoginPath) <==> !hasSession && !StartsWith(pathname, LoginPath)
    ensures o == Redirect(HomePath) <==> hasSession && StartsWith(pathname, LoginPath)
    ensures o == Pass <==> (hasSession <==> !StartsWith(pathname, LoginPath))
  {
    if !hasSession && !StartsWith(pathname, LoginPath) then
      Redirect(LoginPath)
    else if hasSession && StartsWith(pathname, LoginPath) then
      Redirect(HomePath)
    else
      Pass
  }

  /** The paths the gate is configured to intercept. */
  predicate Intercepted(pathname: string) {
    pathname == HomePath || pathname == LoginPath
  }

  /** The gate as deployed: paths outside its configured scope pass
      untouched, and intercepted paths get the gate's decision. */
  function Gate(hasSession: bool, pathname: string): (o: Outcome)
    ensures !Intercepted(pathname) ==> o == Pass
    ensures o.Redirect? ==> Intercepted(pathname) && Intercepted(o.location)
    ensures o == Redirect(LoginPath) <==> !hasSession && pathname == HomePath
    ensures o == Redirect(HomePath) <==> hasSession && pathname == LoginPath
  {
    if Intercepted(pathname) then Decide(hasSession, pathname) else Pass
  }

  /** No redirect loop: following a redirect under the same session state
      lands on a path that passes. */
  lemma NoRedirectLoop(hasSession: bool, pathname: string)
    ensures Decide(hasSession, pathname).Redirect? ==>
      Decide(hasSession, Decide(hasSession, pathname).location) == Pass
    ensures Gate(hasSession, pathname).Redirect? ==>
      Gate(hasSession, Gate(hasSession, pathname).location) == Pass
  {
  }

  /** The gate on its two pages, with and without a session. */
  lemma GateTable()
    ensures Gate(false, HomePath) == Redirect(LoginPath)
    ensures Gate(false, LoginPath) == Pass
    ensures Gate(true, HomePath) == Pass
    ensures Gate(true, LoginPath) == Redirect(HomePath)
  {
  }
}
