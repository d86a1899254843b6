/** The request gate in front of every page: public paths pass, every
    other path needs a signed-in session, and an anonymous request for it is
    sent to the sign-in page carrying the path it asked for. */
module Middleware {
  import opened Text

  /** What the gate does with a request. */
  datatype Decision =
    | Pass
    | RedirectTo(location: string, callbackUrl: string)

  /** Pages open to everyone, together with everything below them. */
  const PublicRoutes: seq<string> := ["/", "/landing", "/sign-in", "/sign-up", "/forgot-password"]

  /** Path prefixes open to everyone. */
  const PublicPrefixes: seq<string> := ["/api/auth", "/t/"]

  /** The sign-in page anonymous visitors are sent to. */
  const SignIn: string := "/sign-in"

  /** The path is the route itself or lies below it. */
  predicate OnRoute(pathname: string, route: string) {
    pathname == route || StartsWith(pathname, route + "/")
  }

  /** `routes.some(r => pathname === r || pathname.startsWith(r + "/"))`. */
  function MatchesRoute(routes: seq<string>, pathname: string): (b: bool)
    ensures b <==> exists k :: 0 <= k < |routes| && OnRoute(pathname, routes[k])
  {
    if routes == [] then false
    else if OnRoute(pathname, routes[0]) then true
    else
      var rest := MatchesRoute(routes[1..], pathname);
      assert forall k :: 1 <= k < |routes| ==> routes[k] == routes[1..][k - 1];
      rest
  }

  /** `prefixes.some(p => pathname.startsWith(p))`. */
  function MatchesPrefix(prefixes: seq<string>, pathname: string): (b: bool)
    ensures b <==> exists k :: 0 <= k < |prefixes| && StartsWith(pathname, prefixes[k])
  {
    if prefixes == [] then false
    else if StartsWith(pathname, prefixes[0]) then true
    else
      var rest := MatchesPrefix(prefixes[1..], pathname);
      assert forall k :: 1 <= k < |prefixes| ==> prefixes[k] == prefixes[1..][k - 1];
      rest
  }

  function IsPublic(pathname: string): bool {
    MatchesRoute(PublicRoutes, pathname) || MatchesPrefix(PublicPrefixes, pathname)
  }

  /** The gate. `authenticated` stands for the session the auth library
      attaches to the request. */
  function Gate(pathname: string, authenticated: bool): (d: Decision)
    ensures IsPublic(pathname) ==> d == Pass
    ensures !IsPublic(pathname) && !authenticated ==> d == RedirectTo(SignIn, pathname)
    ensures authenticated ==> d == Pass
    ensures d.RedirectTo? <==> !IsPublic(pathname) && !authenticated
  {
    if IsPublic(pathname) then Pass
    else if !authenticated then RedirectTo(SignIn, pathname)
    else Pass
  }

  // ---------------------------------------------------------- properties

  /** A public page and every path below it are public. */
  lemma RoutesArePublic(k: nat, rest: string)
    requires k < |PublicRoutes|
    ensures IsPublic(PublicRoutes[k])
    ensures IsPublic(PublicRoutes[k] + "/" + rest)
  {
    var r := PublicRoutes[k];
    assert (r + "/" + rest)[..|r + "/"|] == r + "/";
  }

  /** Every path under a public prefix is public. */
  lemma PrefixesArePublic(k: nat, rest: string)
    requires k < |PublicPrefixes|
    ensures IsPublic(PublicPrefixes[k] + rest)
  {
    var p := PublicPrefixes[k];
    assert (p + rest)[..|p|] == p;
  }

  /** The sign-in page is itself public, so the redirect never loops: an
      anonymous visitor sent there is let through. */
  lemma RedirectTargetPasses(pathname: string)
    requires Gate(pathname, false).RedirectTo?
    ensures Gate(Gate(pathname, false).location, false) == Pass
  {
    RoutesArePublic(2, "");
  }

  /** Every page of the dashboard needs a session: nothing that starts with
      `/dashboard` is public. */
  lemma DashboardIsProtected(rest: string)
    ensures !IsPublic("/dashboard" + rest)
    ensures Gate("/dashboard" + rest, false) == RedirectTo(SignIn, "/dashboard" + rest)
  {
    var p := "/dashboard" + rest;
    assert p[0] == '/' && p[1] == 'd';
    forall k | 0 <= k < |PublicRoutes|
      ensures !OnRoute(p, PublicRoutes[k])
    {
      var r := PublicRoutes[k] + "/";
      assert r[1] != 'd';
    }
    forall k | 0 <= k < |PublicPrefixes|
      ensures !StartsWith(p, PublicPrefixes[k])
    {
      assert PublicPrefixes[k][1] != 'd';
    }
  }

  /** A route is matched on whole path segments only: `/landing` opens
      `/landing/…` but not `/landings`. */
  lemma SegmentBoundary()
    ensures !IsPublic("/landings")
  {
    var p := "/landings";
    forall k | 0 <= k < |PublicRoutes|
      ensures !OnRoute(p, PublicRoutes[k])
    {
      var r := PublicRoutes[k] + "/";
      if k == 0 {
        assert r[1] != p[1];
      } else if k == 1 {
        assert r[8] != p[8];
      } else {
        assert r[1] != p[1];
      }
    }
    forall k | 0 <= k < |PublicPrefixes|
      ensures !StartsWith(p, PublicPrefixes[k])
    {
      assert PublicPrefixes[k][1] != p[1];
    }
  }
}
