/** The route guard of `middleware.ts`: from the request path and the value
    of the `session_token` cookie, either let the request through or
    redirect it. The framework's request and response objects are reduced to
    a path string, an optional cookie value and a decision. */
module Middleware {
  import opened Optional
  import opened JsString

  datatype Decision = Next | Redirect(target: string)

  /** Routes reachable without a session; matched by prefix. */
  const PublicRoutes: seq<string> := ["/login", "/signup"]

  /** `routes.some(r => path.startsWith(r))` */
  predicate SomePrefix(routes: seq<string>, path: string) {
    routes != [] && (StartsWith(path, routes[0]) || SomePrefix(routes[1..], path))
  }

  predicate IsPublicRoute(path: string) {
    SomePrefix(PublicRoutes, path)
  }

  predicate IsApiRoute(path: string) {
    StartsWith(path, "/api")
  }

  /** `/\.(.*)$/.test(path)`: some '.' is followed, up to the end of the
      path, by characters other than line terminators. */
  predicate HasDotSuffix(path: string) {
    exists i :: 0 <= i < |path| && path[i] == '.' && NoLineTerminatorFrom(path, i + 1)
  }

  predicate NoLineTerminatorFrom(path: string, start: nat) {
    forall j :: start <= j < |path| ==> !IsLineTerminator(path[j])
  }

  predicate IsStaticFile(path: string) {
    HasDotSuffix(path) || StartsWith(path, "/_next")
  }

  /** A cookie counts only when it is present and not the empty string:
      the guard tests its truthiness. */
  predicate HasSession(sessionCookie: Option<string>) {
    sessionCookie.Some? && sessionCookie.value != ""
  }

  /** `middleware`. */
  function Guard(path: string, sessionCookie: Option<string>): Decision {
    var isPublicRoute := IsPublicRoute(path);
    var isApiRoute := IsApiRoute(path);
    var isStaticFile := IsStaticFile(path);
    if HasSession(sessionCookie) && isPublicRoute then Redirect("/")
    else if !HasSession(sessionCookie) && !isPublicRoute && !isApiRoute && !isStaticFile then Redirect("/login")
    else Next
  }

  /** The public routes are exactly the paths starting with "/login" or
      "/signup". */
  lemma PublicRoutePrefixes(path: string)
    ensures IsPublicRoute(path) <==> StartsWith(path, "/login") || StartsWith(path, "/signup")
  {
    var rest := PublicRoutes[1..];
    assert PublicRoutes[0] == "/login" && rest == ["/signup"];
    assert rest[1..] == [] && !SomePrefix([], path);
    assert SomePrefix(rest, path) <==> StartsWith(path, "/signup");
  }

  /** The whole decision table: a logged-in visitor of a public route goes to
      "/", a logged-out visitor of a route that is neither public, nor API,
      nor static goes to "/login", and everything else passes. */
  lemma GuardDecisions(path: string, sessionCookie: Option<string>)
    ensures Guard(path, sessionCookie) == Redirect("/") <==>
      HasSession(sessionCookie) && (StartsWith(path, "/login") || StartsWith(path, "/signup"))
    ensures Guard(path, sessionCookie) == Redirect("/login") <==>
      !HasSession(sessionCookie) && !IsPublicRoute(path) && !IsApiRoute(path) && !IsStaticFile(path)
    ensures Guard(path, sessionCookie) == Next <==>
      (HasSession(sessionCookie) && !IsPublicRoute(path))
      || (!HasSession(sessionCookie) && (IsPublicRoute(path) || IsApiRoute(path) || IsStaticFile(path)))
  {
    PublicRoutePrefixes(path);
  }

  /** A logged-in visitor is never sent to "/login", a logged-out one never
      to "/", and no other target is ever produced. */
  lemma GuardTargets(path: string, sessionCookie: Option<string>)
    ensures HasSession(sessionCookie) ==> Guard(path, sessionCookie) != Redirect("/login")
    ensures !HasSession(sessionCookie) ==> Guard(path, sessionCookie) != Redirect("/")
    ensures Guard(path, sessionCookie).Redirect? ==> Guard(path, sessionCookie).target in {"/", "/login"}
  {
  }

  /** No redirect loop: following a redirect with the same cookie is let
      through. */
  lemma GuardNoLoop(path: string, sessionCookie: Option<string>)
    ensures Guard(path, sessionCookie).Redirect? ==> Guard(Guard(path, sessionCookie).target, sessionCookie) == Next
  {
    PublicRoutePrefixes("/");
    PublicRoutePrefixes("/login");
  }

  /** An empty cookie value is the same as no cookie at all. */
  lemma EmptyCookieIsNoCookie(path: string)
    ensures Guard(path, Some("")) == Guard(path, None)
  {
  }

  /** Matching is loose: a dot anywhere in a path without line terminators
      makes it static, and so does a "/_next" prefix; such paths and
      the "/api" ones are never sent to "/login". */
  lemma StaticAndApiPass(path: string, sessionCookie: Option<string>)
    requires (NoLineTerminatorFrom(path, 0) && '.' in path) || StartsWith(path, "/_next") || StartsWith(path, "/api")
    ensures Guard(path, sessionCookie) != Redirect("/login")
  {
    if NoLineTerminatorFrom(path, 0) && '.' in path {
      var i :| 0 <= i < |path| && path[i] == '.';
      assert NoLineTerminatorFrom(path, i + 1);
    }
  }

  /** For a path without line terminators, the static-file pattern is "the
      path contains a dot". */
  lemma DotSuffixIsAnyDot(path: string)
    requires NoLineTerminatorFrom(path, 0)
    ensures HasDotSuffix(path) <==> '.' in path
  {
    if '.' in path {
      var i :| 0 <= i < |path| && path[i] == '.';
      assert NoLineTerminatorFrom(path, i + 1);
    }
  }

  /** A line terminator after the last dot defeats the static-file pattern. */
  lemma DotBeforeLineBreakNotStatic()
    ensures !IsStaticFile("/a.b\nc")
  {
    var path := "/a.b\nc";
    assert path[4] == '\n' && path[5] == 'c';
    forall i | 0 <= i < |path| && path[i] == '.'
      ensures !NoLineTerminatorFrom(path, i + 1)
    {
      assert i + 1 <= 4 && IsLineTerminator(path[4]);
    }
    assert path[..6][1] != "/_next"[1];
  }

  /** Prefix matching also admits longer paths such as "/login-help" and
      "/signupX" as public. */
  lemma PrefixMatchIsLoose()
    ensures IsPublicRoute("/login-help") && IsPublicRoute("/signupX")
    ensures Guard("/login-help", Some("t")) == Redirect("/")
    ensures Guard("/signupX", None) == Next
  {
    PublicRoutePrefixes("/login-help");
    PublicRoutePrefixes("/signupX");
  }
}
