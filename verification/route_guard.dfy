/**
 * The route guard that runs before a dashboard request: a request whose
 * path starts with a protected prefix and that carries no session token is
 * sent to the sign-in page; every other request continues. Whether a token
 * was found is an input here.
 */
module RouteGuard {
  import opened JsString

  /** `protectedPaths`: the prefixes that need a signed-in user. */
  const ProtectedPaths: seq<string> := ["/dashboard/upload"]

  /** Where an unauthenticated request for a protected path is sent. */
  const SignInPath: string := "/signin"

  /** What the guard answers: redirect to a path, or let the request through. */
  datatype Response = Redirect(location: string) | Next

  /** `prefixes.some((path) => pathname.startsWith(path))`. */
  function SomeIsPrefix(prefixes: seq<string>, pathname: string): (found: bool)
    ensures found <==> exists i :: 0 <= i < |prefixes| && prefixes[i] <= pathname
  {
    if prefixes == [] then false
    else if StartsWith(pathname, prefixes[0]) then true
    else SomeIsPrefix(prefixes[1..], pathname)
  }

  /** `pathIsProtected`: the path begins, character for character, with "/dashboard/upload". */
  function PathIsProtected(pathname: string): (isProtected: bool)
    ensures isProtected <==> "/dashboard/upload" <= pathname
  {
    SomeIsPrefix(ProtectedPaths, pathname)
  }

  /**
   * `middleware`: redirects to "/signin" exactly when the path is protected
   * and no token was found; otherwise the request continues.
   */
  function Middleware(pathname: string, hasToken: bool): (response: Response)
    ensures response.Redirect? <==> !hasToken && "/dashboard/upload" <= pathname
    ensures response.Redirect? ==> response.location == "/signin"
  {
    if PathIsProtected(pathname) && !hasToken then Redirect(SignInPath) else Next
  }

  /** With a token the request always continues, whatever the path. */
  lemma TokenAlwaysContinues(pathname: string)
    ensures Middleware(pathname, true) == Next
  {
  }

  /** Without a token every protected path goes to the same place, whatever was requested. */
  lemma ProtectedWithoutTokenRedirectsToSignIn(pathname: string)
    requires PathIsProtected(pathname)
    ensures Middleware(pathname, false) == Redirect("/signin")
  {
  }

  /** Anything below a protected path, or any longer name, is protected too. */
  lemma ProtectedIsClosedUnderExtension(pathname: string, rest: string)
    requires PathIsProtected(pathname)
    ensures PathIsProtected(pathname + rest)
  {
  }

  /**
   * The test is a raw prefix test: a longer segment name and a sub-path are
   * protected, the dashboard itself is not, and case matters.
   */
  lemma RawPrefixExamples()
    ensures PathIsProtected("/dashboard/uploads")
    ensures PathIsProtected("/dashboard/upload/x")
    ensures !PathIsProtected("/dashboard")
    ensures !PathIsProtected("/Dashboard/upload")
  {
  }
}
