/** The single-page app's routes and its global navigation guard. The guard only
    asks whether a token is stored; it never checks it. */
module Router {
  import opened Base

  datatype RouteName = LoginPage | RegisterPage | ChatPage

  datatype Route = Route(path: string, name: RouteName, requiresAuth: bool)

  const Routes: seq<Route> := [
    Route("/login", LoginPage, false),
    Route("/register", RegisterPage, false),
    Route("/", ChatPage, true)
  ]

  /** ASCII letters folded to lower case, as a case-insensitive regular expression
      compares them against the all-ASCII route paths. */
  function FoldChar(ch: char): char
  {
    if 'A' <= ch <= 'Z' then (ch as int + 32) as char else ch
  }

  function Fold(s: string): (r: string)
    ensures |r| == |s|
    ensures forall i :: 0 <= i < |s| ==> r[i] == FoldChar(s[i])
  {
    seq(|s|, i requires 0 <= i < |s| => FoldChar(s[i]))
  }

  /** A route path without its trailing slash ("/" becomes ""). */
  function Stem(p: string): string
  {
    if |p| > 0 && p[|p| - 1] == '/' then p[..|p| - 1] else p
  }

  /** The router is created without options, so a route matches case-insensitively
      and with an optional trailing slash: the path, letters folded, is the route's
      stem followed by at most one "/". */
  predicate Matches(routePath: string, path: string)
  {
    Fold(path) == Stem(routePath) || Fold(path) == Stem(routePath) + "/"
  }

  /** The route a path matches; an unknown path matches none (no name, empty meta). */
  function Resolve(path: string): (r: Option<Route>)
    ensures r.Some? ==> r.value in Routes && Matches(r.value.path, path)
    ensures r.None? <==> forall x :: x in Routes ==> !Matches(x.path, path)
  {
    if Matches("/login", path) then Some(Routes[0])
    else if Matches("/register", path) then Some(Routes[1])
    else if Matches("/", path) then Some(Routes[2])
    else None
  }

  /** Each declared path resolves to its own route. */
  lemma {:induction false} ResolvesDeclared(x: Route)
    requires x in Routes
    ensures Resolve(x.path) == Some(x)
  {
    FoldKeepsLower(x.path);
    if x == Routes[0] {
      assert Matches("/login", "/login");
    } else if x == Routes[1] {
      assert Stem("/login") == "/login";
      assert !Matches("/login", "/register");
      assert Matches("/register", "/register");
    } else {
      assert Stem("/") == "";
      assert !Matches("/login", "/") && !Matches("/register", "/");
    }
  }

  /** A path without capital letters is its own fold. */
  lemma FoldKeepsLower(s: string)
    requires forall i :: 0 <= i < |s| ==> !('A' <= s[i] <= 'Z')
    ensures Fold(s) == s
  {
  }

  /** Letter case and one trailing slash do not change the route: "/LOGIN/" is the
      login page, and a stored token sends it on to the chat page. */
  lemma CaseAndSlashIgnored()
    ensures Resolve("/LOGIN/") == Some(Routes[0])
    ensures Resolve("/Register") == Some(Routes[1])
    ensures Navigate("/Login/", Some("t")) == Redirect("/")
  {
    assert Fold("/LOGIN/") == "/login/";
    assert Fold("/Login/") == "/login/";
    assert Fold("/Register") == "/register";
  }

  /** What beforeEach passes to next(): continue, or navigate elsewhere. */
  datatype Decision = Proceed | Redirect(path: string)

  /** The guard. `token` is what local storage holds under "token" (null when unset). */
  function Guard(to: Option<Route>, token: Option<string>): (d: Decision)
    ensures d == Redirect("/login") <==> to.Some? && to.value.requiresAuth && !Truthy(token)
    ensures d == Redirect("/") <==>
      to.Some? && to.value.name in {LoginPage, RegisterPage} && Truthy(token)
    ensures d.Redirect? ==> d.path in {"/login", "/"}
  {
    if to.Some? && to.value.requiresAuth && !Truthy(token) then Redirect("/login")
    else if to.Some? && (to.value.name == LoginPage || to.value.name == RegisterPage) && Truthy(token) then Redirect("/")
    else Proceed
  }

  /** Navigating to a path: the guard's decision on the route it matches. */
  function Navigate(path: string, token: Option<string>): Decision
  {
    Guard(Resolve(path), token)
  }

  /** Only the chat page requires a token, and only "/" (or the empty path) reaches it. */
  lemma {:induction false} OnlyChatRequiresAuth(path: string)
    ensures Resolve(path).Some? && Resolve(path).value.requiresAuth <==> path == "/" || path == ""
  {
    assert Stem("/") == "";
    if path == "/" {
      assert Fold(path) == "/";
    }
    if Resolve(path).Some? && Resolve(path).value.requiresAuth && path != "" {
      assert |path| == 1 && FoldChar(path[0]) == '/';
      assert path == [path[0]];
    }
  }

  /** A redirect's target is let through under the same token: no redirect loops. */
  lemma {:induction false} NoRedirectLoop(path: string, token: Option<string>)
    ensures Navigate(path, token).Redirect? ==> Navigate(Navigate(path, token).path, token) == Proceed
  {
    var d := Navigate(path, token);
    if d.Redirect? {
      if Truthy(token) {
        assert d.path == "/";
        ResolvesDeclared(Routes[2]);
      } else {
        assert d.path == "/login";
        ResolvesDeclared(Routes[0]);
      }
    }
  }

  /** Every navigation ends on a page the token state allows: the chat page only
      with a token, the login and register pages only without one. */
  lemma LandsOnAllowedPage(path: string, token: Option<string>)
    ensures var d := Navigate(path, token);
      var landed := if d.Redirect? then Resolve(d.path) else Resolve(path);
      landed.Some? ==> (landed.value.name == ChatPage <==> Truthy(token))
  {
    var d := Navigate(path, token);
    if d.Redirect? {
      NoRedirectLoop(path, token);
    }
  }
}
