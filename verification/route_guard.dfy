/** The client-side routes and the global navigation guard. The router
    first resolves a path against the route table, following a `redirect`
    record, and then asks the guard; a guard redirect starts a new
    navigation, which the guard sees again. */
module RouteGuard {
  import opened Common

  /** A route record: a path, and either a view name or a redirect target. */
  datatype Route = Route(path: string, name: Option<string>, redirect: Option<string>)

  /** The route table. */
  const Routes: seq<Route> := [
    Route("/login", Some("Login"), None),
    Route("/register", Some("Register"), None),
    Route("/dashboard", Some("Dashboard"), None),
    Route("/learn", Some("Learn"), None),
    Route("/", None, Some(DashboardPath))]

  /** Where the guard sends a navigation it refuses. */
  const LoginPath: string := "/login"
  const DashboardPath: string := "/dashboard"

  /** The names the guard lets through without a token. */
  const PublicRoutes: set<string> := {"Login", "Register"}

  /** Where a navigation lands: the path and the name of the matched
      record, none when nothing matched. */
  datatype Location = Location(path: string, name: Option<string>)

  /** ASCII letters in lower case. */
  function Lower(c: char): char
  {
    if 'A' <= c <= 'Z' then (c as int + 32) as char else c
  }

  /** The path without one trailing slash. */
  function StripSlash(p: string): string
  {
    if |p| > 0 && p[|p| - 1] == '/' then p[..|p| - 1] else p
  }

  /** What matching compares: the path without one trailing slash, its
      ASCII letters in lower case. A case-insensitive JavaScript pattern
      without the `u` flag folds no other character onto an ASCII letter,
      and every record path is lower-case ASCII, so this is all the folding
      matching needs. */
  function Key(path: string): string
  {
    var p := StripSlash(path);
    seq(|p|, i requires 0 <= i < |p| => Lower(p[i]))
  }

  /** The router is created with the default options (neither `sensitive`
      nor `strict`): a record's pattern ignores letter case and allows one
      trailing slash, so the root record matches "/" and "". */
  predicate PathMatches(record: string, path: string)
  {
    Key(path) == StripSlash(record)
  }

  /** The first record, from position `i` on, whose path has this key. */
  function MatchKey(routes: seq<Route>, key: string, i: nat): (r: Option<Route>)
    requires i <= |routes|
    ensures r.Some? <==> exists j | i <= j < |routes| :: StripSlash(routes[j].path) == key
    ensures r.Some? ==> r.value in routes && StripSlash(r.value.path) == key
    decreases |routes| - i
  {
    if i == |routes| then None
    else if StripSlash(routes[i].path) == key then Some(routes[i])
    else MatchKey(routes, key, i + 1)
  }

  /** The first record whose pattern matches the path. */
  function Match(routes: seq<Route>, path: string): (r: Option<Route>)
    ensures r.Some? <==> exists i | 0 <= i < |routes| :: PathMatches(routes[i].path, path)
    ensures r.Some? ==> r.value in routes && PathMatches(r.value.path, path)
  {
    MatchKey(routes, Key(path), 0)
  }

  /** Resolution: a redirect record is replaced by its target's match; an
      unmatched path gets no name. The location keeps the path as asked
      for. */
  function Resolve(path: string): (loc: Location)
  {
    match Match(Routes, path)
    case None => Location(path, None)
    case Some(r) =>
      if r.redirect.Some? then
        var target := r.redirect.value;
        Location(target, match Match(Routes, target) case Some(t) => t.name case None => None)
      else Location(path, r.name)
  }

  /** A path without upper-case letters or a trailing slash is its own
      key. */
  lemma KeyOfPlain(path: string)
    requires forall i | 0 <= i < |path| :: !('A' <= path[i] <= 'Z')
    requires |path| > 0 ==> path[|path| - 1] != '/'
    ensures Key(path) == path
  {
    assert forall i | 0 <= i < |path| :: Key(path)[i] == path[i];
  }

  /** Which record a path matches: at most one, in the table's order. */
  lemma MatchByKey(path: string)
    ensures Match(Routes, path) ==
      if Key(path) == "/login" then Some(Routes[0])
      else if Key(path) == "/register" then Some(Routes[1])
      else if Key(path) == "/dashboard" then Some(Routes[2])
      else if Key(path) == "/learn" then Some(Routes[3])
      else if Key(path) == "" then Some(Routes[4])
      else None
  {
    MatchKeyCases(Key(path));
  }

  /** The record each key selects. */
  lemma MatchKeyCases(key: string)
    ensures MatchKey(Routes, key, 0) ==
      if key == "/login" then Some(Routes[0])
      else if key == "/register" then Some(Routes[1])
      else if key == "/dashboard" then Some(Routes[2])
      else if key == "/learn" then Some(Routes[3])
      else if key == "" then Some(Routes[4])
      else None
  {
    assert StripSlash(Routes[4].path) == "";
  }

  /** The guard's two redirect targets match their own records. */
  lemma TargetMatches()
    ensures Match(Routes, DashboardPath) == Some(Routes[2])
    ensures Match(Routes, LoginPath) == Some(Routes[0])
  {
    KeyOfPlain(DashboardPath);
    KeyOfPlain(LoginPath);
    MatchByKey(DashboardPath);
    MatchByKey(LoginPath);
  }

  /** How each path resolves, by its key: the four named records keep the
      path as asked for and take their name, the root goes to the
      dashboard, anything else gets no name. So "/Login/" is the login
      page, and "/login//" is no page at all. */
  lemma ResolveCases(path: string)
    ensures Key(path) == "/login" ==> Resolve(path) == Location(path, Some("Login"))
    ensures Key(path) == "/register" ==> Resolve(path) == Location(path, Some("Register"))
    ensures Key(path) == "/dashboard" ==> Resolve(path) == Location(path, Some("Dashboard"))
    ensures Key(path) == "/learn" ==> Resolve(path) == Location(path, Some("Learn"))
    ensures Key(path) == "" ==> Resolve(path) == Location(DashboardPath, Some("Dashboard"))
    ensures Key(path) !in {"/login", "/register", "/dashboard", "/learn", ""} ==> Resolve(path) == Location(path, None)
  {
    MatchByKey(path);
    TargetMatches();
  }

  /** Two paths with the same key resolve to the same page: letter case and
      one trailing slash never change where a navigation goes. */
  lemma ResolveIgnoresCaseAndSlash(a: string, b: string)
    requires Key(a) == Key(b)
    ensures Resolve(a).name == Resolve(b).name
  {
    ResolveCases(a);
    ResolveCases(b);
  }

  /** The token counts when it is a non-empty string. */
  predicate HasToken(token: Option<string>)
  {
    token.Some? && token.value != ""
  }

  predicate IsPublic(loc: Location)
  {
    loc.name.Some? && loc.name.value in PublicRoutes
  }

  datatype Decision = Allow | RedirectTo(path: string)

  /** The guard: a public route with a token goes to the dashboard, without
      one it is allowed; any other route is allowed with a token and sent to
      the login page without one. */
  function Guard(to: Location, token: Option<string>): (d: Decision)
    ensures d.Allow? <==> (IsPublic(to) <==> !HasToken(token))
    ensures d.RedirectTo? ==> d.path == if HasToken(token) then DashboardPath else LoginPath
  {
    if IsPublic(to) then
      if HasToken(token) then RedirectTo(DashboardPath) else Allow
    else
      if HasToken(token) then Allow else RedirectTo(LoginPath)
  }

  /** A navigation, with at most `hops` guard redirects followed; none when
      the guard is still redirecting after that many. */
  function Navigate(path: string, token: Option<string>, hops: nat): Option<Location>
    decreases hops
  {
    var loc := Resolve(path);
    match Guard(loc, token)
    case Allow => Some(loc)
    case RedirectTo(p) => if hops == 0 then None else Navigate(p, token, hops - 1)
  }

  /** The guard never loops: one redirect always reaches a page it allows. */
  lemma NoRedirectLoop(path: string, token: Option<string>)
    ensures Navigate(path, token, 1).Some?
  {
    match Guard(Resolve(path), token)
    case Allow =>
    case RedirectTo(p) =>
      RedirectTargetAllowed(token);
  }

  /** The page the guard redirects to is one it allows. */
  lemma RedirectTargetAllowed(token: Option<string>)
    ensures var p := if HasToken(token) then DashboardPath else LoginPath;
      Navigate(p, token, 0) == Some(Location(p, Some(if HasToken(token) then "Dashboard" else "Login")))
  {
    TargetMatches();
  }

  /** Access control without a token: every navigation ends on a public
      page, the registration or login page that was asked for (in any
      letter case, with or without a trailing slash), and otherwise the
      login page. */
  lemma AnonymousNavigation(path: string, token: Option<string>)
    requires !HasToken(token)
    ensures Navigate(path, token, 1).Some? && IsPublic(Navigate(path, token, 1).value)
    ensures Key(path) == "/register" ==> Navigate(path, token, 1).value == Location(path, Some("Register"))
    ensures Key(path) == "/login" ==> Navigate(path, token, 1).value == Location(path, Some("Login"))
    ensures Key(path) !in {"/login", "/register"} ==> Navigate(path, token, 1).value == Location(LoginPath, Some("Login"))
  {
    ResolveCases(path);
    RedirectTargetAllowed(token);
  }

  /** Access control with a token: a navigation never ends on a public
      page, and the login, registration and root pages, in any of their
      spellings, send to the dashboard. */
  lemma AuthenticatedNavigation(path: string, token: Option<string>)
    requires HasToken(token)
    ensures Navigate(path, token, 1).Some? && !IsPublic(Navigate(path, token, 1).value)
    ensures Key(path) in {"/login", "/register", ""} ==>
      Navigate(path, token, 1).value == Location(DashboardPath, Some("Dashboard"))
  {
    ResolveCases(path);
    RedirectTargetAllowed(token);
  }

  /** With a token, a page that is not public is shown where it was asked
      for, even one no record matches. */
  lemma AuthenticatedStays(path: string, token: Option<string>)
    requires HasToken(token) && Key(path) !in {"/login", "/register", ""}
    ensures Navigate(path, token, 1) == Some(Resolve(path)) && Resolve(path).path == path
  {
    ProtectedResolvesInPlace(path);
  }

  /** A path whose key is not that of a public page or the root resolves
      to itself and to a page that is not public. */
  lemma ProtectedResolvesInPlace(path: string)
    requires Key(path) !in {"/login", "/register", ""}
    ensures Resolve(path).path == path && !IsPublic(Resolve(path))
  {
    ResolveCases(path);
    if Key(path) == "/dashboard" {
    } else if Key(path) == "/learn" {
    } else {
      assert Key(path) !in {"/login", "/register", "/dashboard", "/learn", ""};
    }
  }
}
